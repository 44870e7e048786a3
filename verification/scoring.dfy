/** The scoring script: check the columns, then label every complaint with a
    sentiment and a severity, batch by batch, keeping the row order.
 */
module Scoring {
  import opened Frame
  import opened SentimentScorer
  import opened SeverityClassifier
  import opened BatchOrchestrator

  const IssueColumn: string := "Issue"
  const ProductColumn: string := "Product"

  /** Column assignment of a constant: a new last column holding `value` in every row. */
  function AddColumn(t: Table, name: string, value: Cell): (r: Table)
    requires t.WellFormed() && name !in t.columns
    ensures r.WellFormed()
    ensures r.columns == t.columns + [name] && |r.rows| == |t.rows|
    ensures forall i :: 0 <= i < |t.rows| ==> r.rows[i] == t.rows[i] + [value]
  {
    Table(t.columns + [name], seq(|t.rows|, i requires 0 <= i < |t.rows| => t.rows[i] + [value]))
  }

  /** The column guards: a missing Issue column is added with empty text,
      then a missing Product column is a fatal error, raised before any
      complaint is scored. */
  function PrepareColumns(t: Table): (r: Result<Table>)
    requires t.WellFormed()
    ensures r.Err? <==> ProductColumn !in t.columns
    ensures r.Err? ==> r.error == MissingProduct
    ensures r.Ok? ==> r.value.WellFormed() && IssueColumn in r.value.columns && ProductColumn in r.value.columns
    ensures r.Ok? && IssueColumn in t.columns ==> r.value == t
    ensures r.Ok? && IssueColumn !in t.columns ==>
              && r.value.columns == t.columns + [IssueColumn]
              && |r.value.rows| == |t.rows|
              && forall i :: 0 <= i < |t.rows| ==> r.value.rows[i] == t.rows[i] + [Present("")]
  {
    var withIssue := if IssueColumn in t.columns then t else AddColumn(t, IssueColumn, Present(""));
    if ProductColumn !in withIssue.columns then Err(MissingProduct) else Ok(withIssue)
  }

  /** A complaint after scoring: its cells, then the two new columns. */
  datatype Scored = Scored(cells: Row, sentiment: Sentiment, severity: Severity)

  datatype ScoredTable = ScoredTable(columns: seq<string>, rows: seq<Scored>)

  /** Where the three cells the rule reads sit in a row. */
  datatype Layout = Layout(narrative: nat, issue: nat, product: nat)

  /** The cell at position `k`, or a missing cell past the end of the row. */
  function CellAt(row: Row, k: nat): Cell {
    if k < |row| then row[k] else Missing
  }

  /** One complaint: sentiment of its narrative first, then severity from
      its issue, its product and that sentiment. */
  function ScoreRow(polarity: string -> real, layout: Layout, row: Row): Scored {
    var sentiment := Score(polarity, Str(CellAt(row, layout.narrative)));
    Scored(row, sentiment, Assign(Str(CellAt(row, layout.issue)), Str(CellAt(row, layout.product)), sentiment))
  }

  /** The issue text the rule sees for row `i` of the input: the cell when the
      column exists, the empty text the guard fills in otherwise. */
  function IssueText(t: Table, i: nat): string
    requires t.WellFormed() && i < |t.rows|
  {
    match IndexOf(t.columns, IssueColumn)
    case None => ""
    case Some(k) => Str(t.rows[i][k])
  }

  /** The cell of column `name` in row `i`; the column must exist. */
  function Column(t: Table, i: nat, name: string): Cell
    requires t.WellFormed() && i < |t.rows| && name in t.columns
  {
    t.rows[i][IndexOf(t.columns, name).value]
  }

  /** The scoring run. It fails when the Product column is missing, or when
      there are rows but no narrative column. Otherwise it keeps every row in
      its place and labels each one exactly as scoring that row alone would:
      the batch size has no effect on the result. An empty frame gives an
      empty result. */
  method ScoreTable(t: Table, polarity: string -> real, size: nat) returns (r: Result<ScoredTable>)
    requires t.WellFormed() && size > 0
    ensures ProductColumn !in t.columns ==> r == Err(MissingProduct)
    ensures ProductColumn in t.columns && NarrativeColumn !in t.columns && |t.rows| > 0 ==>
              r == Err(KeyError([NarrativeColumn]))
    ensures r.Ok? <==> ProductColumn in t.columns && (NarrativeColumn in t.columns || |t.rows| == 0)
    ensures r.Ok? ==> r.value.columns == if IssueColumn in t.columns then t.columns else t.columns + [IssueColumn]
    ensures r.Ok? ==> |r.value.rows| == |t.rows|
    ensures r.Ok? ==> forall i :: 0 <= i < |t.rows| ==>
              var out := r.value.rows[i];
              && |out.cells| == |r.value.columns| && out.cells[..|t.columns|] == t.rows[i]
              && (IssueColumn !in t.columns ==> out.cells[|t.columns|] == Present(""))
              && out.sentiment == Score(polarity, Str(Column(t, i, NarrativeColumn)))
              && out.severity == Assign(IssueText(t, i), Str(Column(t, i, ProductColumn)), out.sentiment)
  {
    var prepared := PrepareColumns(t);
    if prepared.Err? {
      return Err(prepared.error);
    }
    var p := prepared.value;
    var narrative := IndexOf(p.columns, NarrativeColumn);
    if narrative.None? && |p.rows| > 0 {
      assert NarrativeColumn !in t.columns;
      return Err(KeyError([NarrativeColumn]));
    }
    var layout := Layout(if narrative.Some? then narrative.value else 0,
                         IndexOf(p.columns, IssueColumn).value,
                         IndexOf(p.columns, ProductColumn).value);
    var chunks := ProcessInBatches(p.rows, size, (row: Row) => ScoreRow(polarity, layout, row));
    var scored := Flatten(chunks);
    forall i | 0 <= i < |t.rows|
      ensures |scored[i].cells| == |p.columns| && scored[i].cells[..|t.columns|] == t.rows[i]
      ensures IssueColumn !in t.columns ==> scored[i].cells[|t.columns|] == Present("")
      ensures scored[i].sentiment == Score(polarity, Str(Column(t, i, NarrativeColumn)))
      ensures scored[i].severity == Assign(IssueText(t, i), Str(Column(t, i, ProductColumn)), scored[i].sentiment)
    {
      ScoreRowCells(t, p, polarity, layout, i);
      ScoreRowReadsInput(t, p, polarity, layout, i);
    }
    r := Ok(ScoredTable(p.columns, scored));
  }

  /** Scoring a prepared row keeps its cells: the input row, then the empty
      Issue text when the guard added that column. */
  lemma ScoreRowCells(t: Table, p: Table, polarity: string -> real, layout: Layout, i: nat)
    requires t.WellFormed() && PrepareColumns(t) == Ok(p)
    requires i < |t.rows|
    ensures var out := ScoreRow(polarity, layout, p.rows[i]);
            && |out.cells| == |p.columns| && out.cells[..|t.columns|] == t.rows[i]
            && (IssueColumn !in t.columns ==> out.cells[|t.columns|] == Present(""))
  {
    if IssueColumn !in t.columns {
      assert p.rows[i] == t.rows[i] + [Present("")];
    }
  }

  /** Scoring a prepared row reads the narrative, issue and product of the
      corresponding input row. */
  lemma ScoreRowReadsInput(t: Table, p: Table, polarity: string -> real, layout: Layout, i: nat)
    requires t.WellFormed() && PrepareColumns(t) == Ok(p)
    requires i < |t.rows| && NarrativeColumn in t.columns
    requires layout == Layout(IndexOf(p.columns, NarrativeColumn).value,
                              IndexOf(p.columns, IssueColumn).value,
                              IndexOf(p.columns, ProductColumn).value)
    ensures var out := ScoreRow(polarity, layout, p.rows[i]);
            && out.sentiment == Score(polarity, Str(Column(t, i, NarrativeColumn)))
            && out.severity == Assign(IssueText(t, i), Str(Column(t, i, ProductColumn)), out.sentiment)
  {
    RowLayout(t, p, i, NarrativeColumn);
    RowLayout(t, p, i, ProductColumn);
    if IssueColumn in t.columns {
      RowLayout(t, p, i, IssueColumn);
    } else {
      IndexOfDistinct(p.columns, |t.columns|);
    }
  }

  /** Adding the Issue column leaves every existing column where it was. */
  lemma RowLayout(t: Table, p: Table, i: nat, name: string)
    requires t.WellFormed() && PrepareColumns(t) == Ok(p)
    requires i < |t.rows| && name in t.columns
    ensures IndexOf(p.columns, name) == IndexOf(t.columns, name)
    ensures p.rows[i][..|t.columns|] == t.rows[i]
    ensures p.rows[i][IndexOf(p.columns, name).value] == Column(t, i, name)
  {
    var k := IndexOf(t.columns, name).value;
    IndexOfDistinct(p.columns, k);
    if IssueColumn !in t.columns {
      assert p.columns[k] == t.columns[k];
    }
  }
}
