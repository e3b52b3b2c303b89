/** remove_submission_column: drop the "Submission" header and, in every wide row, the
    first cell that carries the submission-status label. The parsed table is modelled as
    rows of cells; parsing and re-serialising the HTML are left to an abstract library. */
module ColumnStrip {
  import opened Wrappers
  import opened PyStr
  import opened Seqs

  /** One `th` or `td` element: its tag, its CSS classes, its text content and its
      serialised markup (`str(cell)`). */
  datatype Cell = Cell(isHeader: bool, classes: seq<string>, text: string, markup: string)

  type Row = seq<Cell>

  type Table = seq<Row>

  const HeaderClass: string := "GridHeader"
  const HeaderText: string := "Submission"
  const StatusLabel: string := "lblSubmissionStatus"

  /** Rows with fewer cells than this are never touched by the second pass. */
  const MinRowWidth: nat := 6

  /** A `th` of class `GridHeader` whose text mentions `Submission`. */
  predicate IsSubmissionHeader(c: Cell) {
    c.isHeader && HeaderClass in c.classes && Contains(c.text, HeaderText)
  }

  /** A cell whose markup mentions `lblSubmissionStatus`. */
  predicate IsStatusCell(c: Cell) {
    Contains(c.markup, StatusLabel)
  }

  /** What the first pass keeps. */
  predicate NotSubmissionHeader(c: Cell) {
    !IsSubmissionHeader(c)
  }

  /** First pass on one row: its cells, in order, without the submission headers. */
  function WithoutHeaders(row: Row): (r: Row)
    ensures |r| <= |row|
    ensures forall i :: 0 <= i < |r| ==> r[i] in row && !IsSubmissionHeader(r[i])
  {
    Filter(row, NotSubmissionHeader)
  }

  /** Second pass on one row: a row of at least six cells loses its first status cell. */
  function WithoutStatusCell(row: Row): (r: Row)
    ensures |r| == |row| || (|row| >= MinRowWidth && |r| == |row| - 1)
  {
    if |row| < MinRowWidth then row
    else
      match FirstWhere(row, IsStatusCell)
      case None => row
      case Some(k) => row[..k] + row[k + 1..]
  }

  /** Both passes, the first over the whole table before the second starts. */
  function StripTable(t: Table): (r: Table)
    ensures |r| == |t|
  {
    Map(Map(t, WithoutHeaders), WithoutStatusCell)
  }

  /** The HTML library as `remove_submission_column` uses it. `parse` gives the rows of the
      first table in the fragment, or `None` when there is none. `render` is `str(soup)`:
      it re-serialises the document parsed from the fragment, with its rows edited.
      Either may raise. */
  datatype HtmlLibrary = HtmlLibrary(
    parse: string -> Attempt<Option<Table>>,
    render: (string, Table) -> Attempt<string>)

  /** What `remove_submission_column` returns or raises: the fragment unchanged when it
      holds no table, and otherwise the document with both passes applied to its table. */
  function Stripped(html: string, lib: HtmlLibrary): Attempt<string> {
    match lib.parse(html)
    case Raised => Raised
    case Completed(None) => Completed(html)
    case Completed(Some(t)) => lib.render(html, StripTable(t))
  }

  /** remove_submission_column, specified by `Stripped`; the two passes are the loops of
      `DropSubmissionHeaders` and `DropStatusCells`. */
  method RemoveSubmissionColumn(html: string, lib: HtmlLibrary) returns (out: Attempt<string>)
    ensures lib.parse(html) == Completed(None) ==> out == Completed(html)
    ensures lib.parse(html).Raised? ==> out.Raised?
    ensures out == Stripped(html, lib)
  {
    var parsed := lib.parse(html);
    if parsed.Raised? {
      return Raised;
    }
    if parsed.value.None? {
      return Completed(html);
    }
    var rows := DropSubmissionHeaders(parsed.value.value);
    rows := DropStatusCells(rows);
    out := lib.render(html, rows);
  }

  /** First pass over the whole table: every submission header is deleted. */
  method DropSubmissionHeaders(table: Table) returns (rows: Table)
    ensures rows == Map(table, WithoutHeaders)
  {
    rows := [];
    var i := 0;
    while i < |table|
      invariant 0 <= i <= |table|
      invariant rows == Map(table[..i], WithoutHeaders)
    {
      var row := table[i];
      var kept: Row := [];
      var j := 0;
      while j < |row|
        invariant 0 <= j <= |row|
        invariant kept == WithoutHeaders(row[..j])
      {
        assert row[..j + 1] == row[..j] + [row[j]];
        FilterSnoc(row[..j], row[j], NotSubmissionHeader);
        if NotSubmissionHeader(row[j]) {
          kept := kept + [row[j]];
        }
        j := j + 1;
      }
      assert row[..|row|] == row;
      assert table[..i + 1] == table[..i] + [row];
      MapSnoc(table[..i], row, WithoutHeaders);
      rows := rows + [kept];
      i := i + 1;
    }
    assert table[..|table|] == table;
  }

  /** Second pass: in every row of at least six cells, the first status cell is deleted. */
  method DropStatusCells(table: Table) returns (rows: Table)
    ensures rows == Map(table, WithoutStatusCell)
  {
    rows := [];
    var i := 0;
    while i < |table|
      invariant 0 <= i <= |table|
      invariant rows == Map(table[..i], WithoutStatusCell)
    {
      var cells := table[i];
      var stripped := cells;
      if |cells| >= MinRowWidth {
        var found: Option<nat> := None;
        var j := 0;
        while j < |cells|
          invariant 0 <= j <= |cells|
          invariant found.None?
          invariant forall m :: 0 <= m < j ==> !IsStatusCell(cells[m])
        {
          if IsStatusCell(cells[j]) {
            found := Some(j);
            break;
          }
          j := j + 1;
        }
        if found.Some? {
          FirstWhereIs(cells, IsStatusCell, j);
          stripped := cells[..j] + cells[j + 1..];
        } else {
          assert FirstWhere(cells, IsStatusCell).None?;
        }
      }
      assert table[..i + 1] == table[..i] + [cells];
      MapSnoc(table[..i], cells, WithoutStatusCell);
      rows := rows + [stripped];
      i := i + 1;
    }
    assert table[..|table|] == table;
  }

  /** The second pass only ever removes cells. */
  lemma WithoutStatusCellSubset(row: Row)
    ensures forall c :: c in WithoutStatusCell(row) ==> c in row
  {
    if |row| >= MinRowWidth && FirstWhere(row, IsStatusCell).Some? {
      var k := FirstWhere(row, IsStatusCell).value;
      assert row == row[..k] + [row[k]] + row[k + 1..];
    }
  }

  /** After stripping, no `GridHeader` header mentioning `Submission` is left anywhere. */
  lemma NoSubmissionHeaderRemains(t: Table)
    ensures |StripTable(t)| == |t|
    ensures forall i, c :: 0 <= i < |t| && c in StripTable(t)[i] ==> !IsSubmissionHeader(c)
  {
    forall i | 0 <= i < |t|
      ensures forall c :: c in StripTable(t)[i] ==> !IsSubmissionHeader(c)
    {
      WithoutStatusCellSubset(WithoutHeaders(t[i]));
    }
  }

  /** A row that has fewer than six cells once its submission headers are gone keeps all
      of its remaining cells; if it had no such header, it is left exactly as it was. */
  lemma ShortRowKept(t: Table, i: nat)
    requires i < |t| && |WithoutHeaders(t[i])| < MinRowWidth
    ensures StripTable(t)[i] == WithoutHeaders(t[i])
    ensures (forall k :: 0 <= k < |t[i]| ==> !IsSubmissionHeader(t[i][k])) ==> StripTable(t)[i] == t[i]
  {
    if forall k :: 0 <= k < |t[i]| ==> !IsSubmissionHeader(t[i][k]) {
      FilterKeepsAll(t[i], NotSubmissionHeader);
    }
  }

  /** The second pass removes at most one cell of a row: the first status cell, and only
      when the row, counted after the first pass, has at least six cells. The other cells
      keep their order. */
  lemma AtMostOneCellRemoved(t: Table, i: nat)
    requires i < |t|
    ensures var h, r := WithoutHeaders(t[i]), StripTable(t)[i];
      (r == h && !(|h| >= MinRowWidth && exists k :: 0 <= k < |h| && IsStatusCell(h[k]))) ||
      (|h| >= MinRowWidth &&
       exists k :: 0 <= k < |h| && IsStatusCell(h[k]) && r == h[..k] + h[k + 1..] &&
         forall m :: 0 <= m < k ==> !IsStatusCell(h[m]))
  {
    var h := WithoutHeaders(t[i]);
    if |h| >= MinRowWidth && FirstWhere(h, IsStatusCell).Some? {
      var k := FirstWhere(h, IsStatusCell).value;
      assert IsStatusCell(h[k]);
    }
  }

  /** A header row of seven cells with exactly one submission header and no status cell
      comes out with the other six cells, in order. */
  lemma HeaderRowOfSevenKeepsSix(t: Table, i: nat, k: nat)
    requires i < |t| && |t[i]| == 7
    requires k < 7 && IsSubmissionHeader(t[i][k])
    requires forall m :: 0 <= m < 7 && m != k ==> !IsSubmissionHeader(t[i][m])
    requires forall m :: 0 <= m < 7 ==> !IsStatusCell(t[i][m])
    ensures StripTable(t)[i] == t[i][..k] + t[i][k + 1..]
    ensures |StripTable(t)[i]| == 6
  {
    FilterDropsOne(t[i], k, NotSubmissionHeader);
    var h := WithoutHeaders(t[i]);
    forall m | 0 <= m < |h|
      ensures !IsStatusCell(h[m])
    {
      assert h[m] in t[i];
    }
  }

  /** A data row of six cells without submission headers loses exactly its first status
      cell and keeps five. */
  lemma DataRowOfSixKeepsFive(t: Table, i: nat, k: nat)
    requires i < |t| && |t[i]| == 6
    requires forall m :: 0 <= m < 6 ==> !IsSubmissionHeader(t[i][m])
    requires k < 6 && IsStatusCell(t[i][k])
    requires forall m :: 0 <= m < k ==> !IsStatusCell(t[i][m])
    ensures StripTable(t)[i] == t[i][..k] + t[i][k + 1..]
    ensures |StripTable(t)[i]| == 5
  {
    FilterKeepsAll(t[i], NotSubmissionHeader);
  }
}
