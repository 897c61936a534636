/** FormatMarkdownTables and FormatMarkdownTable: every maximal run of table rows is
    re-rendered with each column padded to its widest cell. */
module TableFormatting {
  import opened Strings

  /** line.TrimStart(' ', '\t').StartsWith('|'), scanning past the leading blanks. */
  predicate IsTableRow(line: string) {
    line != [] && if line[0] == ' ' || line[0] == '\t' then IsTableRow(line[1..]) else line[0] == '|'
  }

  /** The scan agrees with trimming the spaces and tabs and looking at what is left. */
  lemma {:induction false} IsTableRowTrimmed(line: string)
    ensures IsTableRow(line) <==> TrimStartOf(line, {' ', '\t'}) != [] && TrimStartOf(line, {' ', '\t'})[0] == '|'
  {
    var blanks := {' ', '\t'};
    if line != [] && (line[0] == ' ' || line[0] == '\t') {
      assert line[0] in blanks;
      assert TrimStartOf(line, blanks) == TrimStartOf(line[1..], blanks);
      IsTableRowTrimmed(line[1..]);
    } else {
      assert line == [] || line[0] !in blanks;
      assert TrimStartOf(line, blanks) == line;
    }
  }

  /** row.Split('|', StringSplitOptions.RemoveEmptyEntries): the cells of a row,
      surrounding spaces included. */
  function Cells(row: string): (r: seq<string>)
    ensures forall k :: 0 <= k < |r| ==> r[k] != "" && '|' !in r[k]
  {
    RemoveEmpty(SplitOn(row, '|'))
  }

  /** The table as a matrix of cells, one row of cells per line. */
  function CellTable(rows: seq<string>): (t: seq<seq<string>>)
    ensures |t| == |rows|
  {
    if rows == [] then [] else [Cells(rows[0])] + CellTable(rows[1..])
  }

  lemma {:induction false} CellTableAt(rows: seq<string>, k: nat)
    requires k < |rows|
    ensures CellTable(rows)[k] == Cells(rows[k])
  {
    if k > 0 {
      CellTableAt(rows[1..], k - 1);
    }
  }

  /** Every row has as many cells as the first one. */
  predicate Uniform(table: seq<seq<string>>) {
    forall k :: 0 <= k < |table| ==> |table[k]| == |table[0]|
  }

  /** The block can be formatted: reading column widths off row 0 indexes every
      row, and padding every row indexes the width array, only when all rows
      split into the same number of cells. */
  predicate UniformRows(rows: seq<string>) {
    Uniform(CellTable(rows))
  }

  /** table.Max(r => r[i].Length): the length of the longest cell of column `i`. */
  function MaxWidth(table: seq<seq<string>>, i: nat): (w: nat)
    requires table != []
    requires forall k :: 0 <= k < |table| ==> i < |table[k]|
    ensures forall k :: 0 <= k < |table| ==> |table[k][i]| <= w
    ensures exists k :: 0 <= k < |table| && w == |table[k][i]|
  {
    if |table| == 1 then |table[0][i]|
    else
      var m := MaxWidth(table[1..], i);
      assert forall k :: 1 <= k < |table| ==> table[k] == table[1..][k - 1];
      if |table[0][i]| > m then |table[0][i]| else m
  }

  /** The widths of the first `n` columns, as the loop fills them in. */
  function WidthsUpTo(table: seq<seq<string>>, n: nat): (w: seq<nat>)
    requires table != [] && Uniform(table) && n <= |table[0]|
    ensures |w| == n
  {
    if n == 0 then [] else WidthsUpTo(table, n - 1) + [MaxWidth(table, n - 1)]
  }

  /** The column widths of a uniform, non-empty table. */
  function Widths(table: seq<seq<string>>): (w: seq<nat>)
    requires table != [] && Uniform(table)
    ensures |w| == |table[0]|
  {
    WidthsUpTo(table, |table[0]|)
  }

  lemma {:induction false} WidthsUpToAt(table: seq<seq<string>>, n: nat, i: nat)
    requires table != [] && Uniform(table) && i < n <= |table[0]|
    ensures WidthsUpTo(table, n)[i] == MaxWidth(table, i)
  {
    if i < n - 1 {
      WidthsUpToAt(table, n - 1, i);
    }
  }

  /** The width of column `i` is the length of its longest cell. */
  lemma WidthIsColumnMax(table: seq<seq<string>>, i: nat)
    requires table != [] && Uniform(table) && i < |table[0]|
    ensures forall k :: 0 <= k < |table| ==> |table[k][i]| <= Widths(table)[i]
    ensures exists k :: 0 <= k < |table| && Widths(table)[i] == |table[k][i]|
  {
    WidthsUpToAt(table, |table[0]|, i);
  }

  /** Every cell right-padded with spaces to its column's width. */
  function Padded(cells: seq<string>, widths: seq<nat>): (ps: seq<string>)
    requires |cells| <= |widths|
    ensures |ps| == |cells|
    ensures forall i :: 0 <= i < |cells| ==> |cells[i]| <= |ps[i]| && ps[i][..|cells[i]|] == cells[i]
    ensures forall i :: 0 <= i < |cells| && |cells[i]| <= widths[i] ==> |ps[i]| == widths[i]
  {
    seq(|cells|, i requires 0 <= i < |cells| => PadRight(cells[i], widths[i]))
  }

  /** Each piece followed by a bar. */
  function Bars(ps: seq<string>): string {
    if ps == [] then "" else ps[0] + "|" + Bars(ps[1..])
  }

  /** Every cell padded to its column's width and followed by a bar. */
  function RenderCells(cells: seq<string>, widths: seq<nat>): string
    requires |cells| <= |widths|
  {
    if cells == [] then ""
    else RenderCells(cells[..|cells| - 1], widths) + PadRight(cells[|cells| - 1], widths[|cells| - 1]) + "|"
  }

  /** "|" followed by every padded cell and its closing bar. */
  function RenderRow(cells: seq<string>, widths: seq<nat>): (r: string)
    requires |cells| <= |widths|
    ensures r != [] && r[0] == '|'
  {
    "|" + RenderCells(cells, widths)
  }

  /** The rendered rows of a table, in order. */
  function RenderRows(table: seq<seq<string>>, widths: seq<nat>): (r: seq<string>)
    requires forall k :: 0 <= k < |table| ==> |table[k]| <= |widths|
    ensures |r| == |table|
  {
    if table == [] then []
    else RenderRows(table[..|table| - 1], widths) + [RenderRow(table[|table| - 1], widths)]
  }

  lemma {:induction false} RenderRowsAt(table: seq<seq<string>>, widths: seq<nat>, k: nat)
    requires forall j :: 0 <= j < |table| ==> |table[j]| <= |widths|
    requires k < |table|
    ensures RenderRows(table, widths)[k] == RenderRow(table[k], widths)
  {
    if k < |table| - 1 {
      RenderRowsAt(table[..|table| - 1], widths, k);
    }
  }

  /** FormatMarkdownTable as a function of its input lines. */
  function FormattedTable(rows: seq<string>): (r: seq<string>)
    requires UniformRows(rows)
    ensures |r| == |rows|
  {
    if rows == [] then rows
    else
      var table := CellTable(rows);
      RenderRows(table, Widths(table))
  }

  lemma {:induction false} BarsSnoc(ps: seq<string>, p: string)
    ensures Bars(ps + [p]) == Bars(ps) + p + "|"
  {
    if ps == [] {
      assert ps + [p] == [p];
    } else {
      assert (ps + [p])[0] == ps[0] && (ps + [p])[1..] == ps[1..] + [p];
      BarsSnoc(ps[1..], p);
    }
  }

  /** The body of the row loop of FormatMarkdownTable: "|" followed by every cell
      padded to its column's width and a bar. */
  method FormatRow(row: seq<string>, columnWidths: array<int>, ghost widths: seq<nat>) returns (line: string)
    requires |row| <= |widths| && columnWidths[..] == widths
    ensures line == RenderRow(row, widths)
  {
    line := "|";
    for i := 0 to |row|
      invariant line == "|" + RenderCells(row[..i], widths)
    {
      RenderNextCell(row, widths, i);
      assert columnWidths[i] == widths[i];
      line := line + PadRight(row[i], columnWidths[i]) + "|";
    }
    assert row[..|row|] == row;
  }

  /** One more cell rendered after the ones before it. */
  lemma RenderNextCell(row: seq<string>, widths: seq<nat>, i: nat)
    requires i < |row| <= |widths|
    ensures "|" + RenderCells(row[..i + 1], widths)
         == "|" + RenderCells(row[..i], widths) + PadRight(row[i], widths[i]) + "|"
  {
    RenderCellsSnoc(row, widths, i);
    var x, p := RenderCells(row[..i], widths), PadRight(row[i], widths[i]);
    Associative("|", x + p, "|");
    Associative("|", x, p);
  }

  lemma RenderCellsSnoc(row: seq<string>, widths: seq<nat>, i: nat)
    requires i < |row| <= |widths|
    ensures RenderCells(row[..i + 1], widths)
         == RenderCells(row[..i], widths) + PadRight(row[i], widths[i]) + "|"
  {
    PrefixSnoc(row, i);
  }

  /** The width loop of FormatMarkdownTable: one array slot per column of row 0. */
  method MeasureColumns(table: seq<seq<string>>) returns (columnWidths: array<int>)
    requires table != [] && Uniform(table)
    ensures fresh(columnWidths)
    ensures columnWidths[..] == Widths(table)
  {
    columnWidths := new int[|table[0]|];
    for i := 0 to |table[0]|
      invariant columnWidths[..i] == WidthsUpTo(table, i)
    {
      columnWidths[i] := MaxWidth(table, i);
      assert columnWidths[..i + 1] == columnWidths[..i] + [columnWidths[i]];
    }
    assert columnWidths[..] == columnWidths[..|table[0]|];
  }

  /** FormatMarkdownTable: the widths of the columns of row 0 are measured over the
      whole block into an array, then every row is rebuilt cell by cell. */
  method FormatMarkdownTable(lines: seq<string>) returns (result: seq<string>)
    requires UniformRows(lines)
    ensures result == FormattedTable(lines)
  {
    result := [];
    var table := CellTable(lines);
    if |table| > 0 {
      var columnWidths := MeasureColumns(table);
      ghost var widths := Widths(table);
      for k := 0 to |table|
        invariant columnWidths[..] == widths
        invariant result == RenderRows(table[..k], widths)
      {
        var line := FormatRow(table[k], columnWidths, widths);
        assert table[..k + 1][..k] == table[..k];
        result := result + [line];
      }
      assert table[..|table|] == table;
    } else {
      result := result + lines;
    }
  }

  // ---------------------------------------------------------------------------
  // Properties of one formatted block

  function SumWidths(w: seq<nat>): nat {
    if w == [] then 0 else w[0] + SumWidths(w[1..])
  }

  lemma {:induction false} BarsLength(cells: seq<string>, widths: seq<nat>)
    requires |cells| == |widths|
    requires forall i :: 0 <= i < |cells| ==> |cells[i]| <= widths[i]
    ensures |Bars(Padded(cells, widths))| == SumWidths(widths) + |widths|
  {
    if cells != [] {
      BarsLength(cells[1..], widths[1..]);
      assert Padded(cells, widths)[1..] == Padded(cells[1..], widths[1..]);
    }
  }

  lemma {:induction false} RenderCellsBars(cells: seq<string>, widths: seq<nat>)
    requires |cells| <= |widths|
    ensures RenderCells(cells, widths) == Bars(Padded(cells, widths))
    decreases |cells|
  {
    if cells != [] {
      var n := |cells| - 1;
      RenderCellsBars(cells[..n], widths);
      assert Padded(cells, widths) == Padded(cells[..n], widths) + [PadRight(cells[n], widths[n])];
      BarsSnoc(Padded(cells[..n], widths), PadRight(cells[n], widths[n]));
    }
  }

  /** A rendered row is one bar, the column widths and one bar per column long. */
  lemma RowLength(cells: seq<string>, widths: seq<nat>)
    requires |cells| == |widths|
    requires forall i :: 0 <= i < |cells| ==> |cells[i]| <= widths[i]
    ensures |RenderRow(cells, widths)| == 1 + SumWidths(widths) + |widths|
  {
    BarsLength(cells, widths);
    RenderCellsBars(cells, widths);
  }

  /** Every row of a uniform block fits the widths: as many cells as columns, each
      no longer than its column. */
  lemma RowFitsWidths(rows: seq<string>, k: nat)
    requires UniformRows(rows) && k < |rows|
    ensures |CellTable(rows)[k]| == |Widths(CellTable(rows))|
    ensures forall i :: 0 <= i < |CellTable(rows)[k]| ==>
      |CellTable(rows)[k][i]| <= Widths(CellTable(rows))[i]
  {
    var table := CellTable(rows);
    forall i | 0 <= i < |table[k]| ensures |table[k][i]| <= Widths(table)[i] {
      WidthIsColumnMax(table, i);
    }
  }

  lemma FormattedRowLength(rows: seq<string>, k: nat)
    requires UniformRows(rows) && k < |rows|
    ensures |FormattedTable(rows)[k]| == 1 + SumWidths(Widths(CellTable(rows))) + |Widths(CellTable(rows))|
  {
    var table := CellTable(rows);
    RenderRowsAt(table, Widths(table), k);
    RowFitsWidths(rows, k);
    RowLength(table[k], Widths(table));
  }

  /** All rows of a formatted block have the same length, 1 + Σwidths + column count. */
  lemma FormattedRowsEqualLength(rows: seq<string>)
    requires UniformRows(rows) && rows != []
    ensures forall k :: 0 <= k < |rows| ==>
      |FormattedTable(rows)[k]| == 1 + SumWidths(Widths(CellTable(rows))) + |Cells(rows[0])|
  {
    CellTableAt(rows, 0);
    forall k | 0 <= k < |rows|
      ensures |FormattedTable(rows)[k]| == 1 + SumWidths(Widths(CellTable(rows))) + |Cells(rows[0])|
    {
      FormattedRowLength(rows, k);
    }
  }

  lemma {:induction false} SplitBars(ps: seq<string>)
    requires forall i :: 0 <= i < |ps| ==> '|' !in ps[i]
    ensures SplitOn(Bars(ps), '|') == ps + [""]
  {
    if ps != [] {
      SplitBars(ps[1..]);
      SplitOnSeparated(ps[0], '|', Bars(ps[1..]));
      assert [ps[0]] + (ps[1..] + [""]) == ps + [""];
    }
  }

  lemma PaddingKeepsCell(c: string, w: nat)
    requires c != "" && '|' !in c
    ensures PadRight(c, w) != "" && '|' !in PadRight(c, w)
  {
    var p := PadRight(c, w);
    forall i | 0 <= i < |p| ensures p[i] != '|' {
      if i < |c| { assert p[i] == p[..|c|][i]; }
    }
  }

  /** Reading the cells of a rendered row gives back the padded cells. */
  lemma CellsOfRenderedRow(cells: seq<string>, widths: seq<nat>)
    requires |cells| <= |widths|
    requires forall i :: 0 <= i < |cells| ==> cells[i] != "" && '|' !in cells[i]
    ensures Cells(RenderRow(cells, widths)) == Padded(cells, widths)
  {
    var ps := Padded(cells, widths);
    RenderedPieces(cells, widths);
    RemoveEmptyFramed(ps);
  }

  /** Splitting a rendered row at its bars gives the padded cells, framed by the empty
      pieces before the first bar and after the last. */
  lemma RenderedPieces(cells: seq<string>, widths: seq<nat>)
    requires |cells| <= |widths|
    requires forall i :: 0 <= i < |cells| ==> cells[i] != "" && '|' !in cells[i]
    ensures forall i :: 0 <= i < |cells| ==> Padded(cells, widths)[i] != ""
    ensures SplitOn(RenderRow(cells, widths), '|') == [""] + (Padded(cells, widths) + [""])
  {
    var ps := Padded(cells, widths);
    forall i | 0 <= i < |ps| ensures ps[i] != "" && '|' !in ps[i] {
      PaddingKeepsCell(cells[i], widths[i]);
    }
    SplitBars(ps);
    RenderCellsBars(cells, widths);
    SplitOnSeparated("", '|', Bars(ps));
    assert "" + "|" + Bars(ps) == RenderRow(cells, widths);
  }

  /** Dropping the empty pieces around non-empty ones leaves those. */
  lemma RemoveEmptyFramed(ps: seq<string>)
    requires forall i :: 0 <= i < |ps| ==> ps[i] != ""
    ensures RemoveEmpty([""] + (ps + [""])) == ps
  {
    RemoveEmptyAppend([""], ps + [""]);
    RemoveEmptyAppend(ps, [""]);
    RemoveEmptyKeeps(ps);
  }

  /** Padding a cell to its own length leaves it alone. */
  lemma PaddedFull(cells: seq<string>, widths: seq<nat>)
    requires |cells| == |widths|
    requires forall i :: 0 <= i < |cells| ==> |cells[i]| == widths[i]
    ensures Padded(cells, widths) == cells
  {
  }

  /** The cells of a formatted row are the original cells, padded to the widths. */
  lemma FormattedCells(rows: seq<string>, k: nat)
    requires UniformRows(rows) && k < |rows|
    ensures Cells(FormattedTable(rows)[k]) == Padded(CellTable(rows)[k], Widths(CellTable(rows)))
    ensures forall i :: 0 <= i < |CellTable(rows)[k]| ==>
      |Padded(CellTable(rows)[k], Widths(CellTable(rows)))[i]| == Widths(CellTable(rows))[i]
  {
    var table := CellTable(rows);
    RenderRowsAt(table, Widths(table), k);
    CellTableAt(rows, k);
    CellsOfRenderedRow(table[k], Widths(table));
    RowFitsWidths(rows, k);
  }

  /** A formatted block is formatted again into itself: its columns already have
      their widths and no cell needs more padding. */
  lemma FormattedTableIdempotent(rows: seq<string>)
    requires UniformRows(rows)
    ensures UniformRows(FormattedTable(rows))
    ensures FormattedTable(FormattedTable(rows)) == FormattedTable(rows)
  {
    if rows != [] {
      var out := FormattedTable(rows);
      ReformattedWidths(rows);
      forall k | 0 <= k < |rows| ensures FormattedTable(out)[k] == out[k] {
        ReformattedRow(rows, k);
      }
    }
  }

  /** Row k of a formatted block splits into the padded cells of row k, each exactly as
      wide as its column. */
  lemma ReformattedCells(rows: seq<string>, k: nat)
    requires UniformRows(rows) && rows != [] && k < |rows|
    ensures CellTable(FormattedTable(rows))[k] == Padded(CellTable(rows)[k], Widths(CellTable(rows)))
    ensures |CellTable(FormattedTable(rows))[k]| == |Widths(CellTable(rows))|
    ensures forall i :: 0 <= i < |Widths(CellTable(rows))| ==>
      |CellTable(FormattedTable(rows))[k][i]| == Widths(CellTable(rows))[i]
  {
    CellTableAt(FormattedTable(rows), k);
    FormattedCells(rows, k);
    RowFitsWidths(rows, k);
  }

  /** A formatted block is uniform again, with the same column widths. */
  lemma ReformattedWidths(rows: seq<string>)
    requires UniformRows(rows) && rows != []
    ensures UniformRows(FormattedTable(rows))
    ensures Widths(CellTable(FormattedTable(rows))) == Widths(CellTable(rows))
  {
    var table := CellTable(rows);
    var w := Widths(table);
    var table' := CellTable(FormattedTable(rows));
    forall k | 0 <= k < |rows|
      ensures |table'[k]| == |w|
      ensures forall i :: 0 <= i < |w| ==> |table'[k][i]| == w[i]
    {
      ReformattedCells(rows, k);
    }
    assert Uniform(table');
    var w' := Widths(table');
    forall i | 0 <= i < |w| ensures w'[i] == w[i] {
      WidthIsColumnMax(table', i);
    }
  }

  /** Row k of a formatted block is rendered again into itself. */
  lemma ReformattedRow(rows: seq<string>, k: nat)
    requires UniformRows(rows) && rows != [] && k < |rows|
    requires UniformRows(FormattedTable(rows))
    requires Widths(CellTable(FormattedTable(rows))) == Widths(CellTable(rows))
    ensures FormattedTable(FormattedTable(rows))[k] == FormattedTable(rows)[k]
  {
    var table := CellTable(rows);
    ReformattedCells(rows, k);
    FormattedRowIs(FormattedTable(rows), k);
    FormattedRowIs(rows, k);
    RowFitsWidths(rows, k);
    RepaddedRow(table[k], Widths(table));
  }

  /** Row k of a formatted block is row k of the cell table, rendered. */
  lemma FormattedRowIs(rows: seq<string>, k: nat)
    requires UniformRows(rows) && k < |rows|
    ensures |CellTable(rows)[k]| == |Widths(CellTable(rows))|
    ensures FormattedTable(rows)[k] == RenderRow(CellTable(rows)[k], Widths(CellTable(rows)))
  {
    var table := CellTable(rows);
    RenderRowsAt(table, Widths(table), k);
  }

  /** Rendering cells that are already padded to their widths gives the same row. */
  lemma RepaddedRow(cells: seq<string>, widths: seq<nat>)
    requires |cells| == |widths|
    requires forall i :: 0 <= i < |cells| ==> |cells[i]| <= widths[i]
    ensures RenderRow(Padded(cells, widths), widths) == RenderRow(cells, widths)
  {
    PaddedFull(Padded(cells, widths), widths);
    RenderCellsBars(Padded(cells, widths), widths);
    RenderCellsBars(cells, widths);
  }

  // ---------------------------------------------------------------------------
  // Grouping the lines into table runs

  /** The number of table rows at the start of `lines`. */
  function TableRun(lines: seq<string>): (n: nat)
    ensures n <= |lines|
    ensures forall k :: 0 <= k < n ==> IsTableRow(lines[k])
    ensures n == |lines| || !IsTableRow(lines[n])
  {
    if lines != [] && IsTableRow(lines[0]) then
      var m := TableRun(lines[1..]);
      assert forall k :: 1 <= k < |lines| ==> lines[k] == lines[1..][k - 1];
      1 + m
    else 0
  }

  /** lines[lo..hi] is a maximal run of table rows. */
  predicate MaximalRun(lines: seq<string>, lo: int, hi: int) {
    0 <= lo < hi <= |lines| &&
    (forall k :: lo <= k < hi ==> IsTableRow(lines[k])) &&
    (lo == 0 || !IsTableRow(lines[lo - 1])) &&
    (hi == |lines| || !IsTableRow(lines[hi]))
  }

  /** Every maximal run of table rows can be formatted. */
  predicate TablesWellFormed(lines: seq<string>) {
    forall lo, hi :: 0 <= lo < hi <= |lines| && MaximalRun(lines, lo, hi) ==> UniformRows(lines[lo..hi])
  }

  /** One run of table rows as FormatMarkdownTables emits it. A ragged run makes
      FormatMarkdownTable index out of range, which the method's precondition
      rules out; such a run is left as it is here. */
  function FormatRun(rows: seq<string>): (r: seq<string>)
    ensures |r| == |rows|
  {
    if UniformRows(rows) then FormattedTable(rows) else rows
  }

  /** FormatMarkdownTables as a function: every maximal run of table rows is replaced
      by its formatted block, every other line is kept. */
  function FormatTables(lines: seq<string>): (r: seq<string>)
    ensures |r| == |lines|
    decreases |lines|
  {
    if lines == [] then []
    else if IsTableRow(lines[0]) then
      var n := TableRun(lines);
      FormatRun(lines[..n]) + FormatTables(lines[n..])
    else [lines[0]] + FormatTables(lines[1..])
  }

  /** A run of table rows ended by a non-table line (or the end) has exactly that length. */
  lemma {:induction false} TableRunExact(s: seq<string>, n: nat)
    requires n <= |s|
    requires forall k :: 0 <= k < n ==> IsTableRow(s[k])
    requires n == |s| || !IsTableRow(s[n])
    ensures TableRun(s) == n
  {
    if n > 0 {
      assert s[1..][n - 1..] == s[n..];
      TableRunExact(s[1..], n - 1);
    }
  }

  /** The number of lines FormatTables handles as its first group: a whole run of
      table rows, or one other line. */
  function HeadLength(lines: seq<string>): (n: nat)
    requires lines != []
    ensures 1 <= n <= |lines|
    ensures forall k :: 0 <= k < n && IsTableRow(lines[0]) ==> IsTableRow(lines[k])
  {
    if IsTableRow(lines[0]) then TableRun(lines) else 1
  }

  /** The output of FormatTables, past its head group, is FormatTables of the rest. */
  lemma FormatTablesTail(lines: seq<string>, n: nat)
    requires lines != []
    requires n == HeadLength(lines)
    ensures 1 <= n <= |lines|
    ensures FormatTables(lines)[n..] == FormatTables(lines[n..])
  {
    if IsTableRow(lines[0]) {
      var head := FormatRun(lines[..n]);
      assert (head + FormatTables(lines[n..]))[|head|..] == FormatTables(lines[n..]);
    } else {
      assert ([lines[0]] + FormatTables(lines[1..]))[1..] == FormatTables(lines[1..]);
    }
  }

  /** A line that is not a table row is kept at its own index. */
  lemma {:induction false} NonTableLineKept(lines: seq<string>, k: nat)
    requires k < |lines| && !IsTableRow(lines[k])
    ensures FormatTables(lines)[k] == lines[k]
    decreases |lines|, 1
  {
    if k >= HeadLength(lines) {
      KeptPastHead(lines, k);
    } else {
      HeadLineKept(lines, k);
    }
  }

  /** Inductive step of NonTableLineKept: a line past the first group. */
  lemma {:induction false} KeptPastHead(lines: seq<string>, k: nat)
    requires k < |lines| && !IsTableRow(lines[k])
    requires k >= HeadLength(lines)
    ensures FormatTables(lines)[k] == lines[k]
    decreases |lines|, 0
  {
    var n := HeadLength(lines);
    TailIndex(lines, n, k);
    NonTableLineKept(lines[n..], k - n);
  }

  /** Past the first group, FormatTables works on the rest of the input. */
  lemma TailIndex(lines: seq<string>, n: nat, k: nat)
    requires lines != [] && n == HeadLength(lines) && n <= k < |lines|
    ensures lines[n..][k - n] == lines[k]
    ensures FormatTables(lines)[k] == FormatTables(lines[n..])[k - n]
  {
    FormatTablesTail(lines, n);
    DropIndex(lines, n, k);
    DropIndex(FormatTables(lines), n, k);
  }

  lemma DropIndex<T>(s: seq<T>, n: nat, k: nat)
    requires n <= k < |s|
    ensures s[n..][k - n] == s[k]
  {
  }

  /** A line of the first group that is not a table row is the first line, kept. */
  lemma HeadLineKept(lines: seq<string>, k: nat)
    requires k < |lines| && !IsTableRow(lines[k])
    requires k < HeadLength(lines)
    ensures FormatTables(lines)[k] == lines[k]
  {
    assert !IsTableRow(lines[0]);
    assert FormatTables(lines) == [lines[0]] + FormatTables(lines[1..]);
  }

  /** The rows of a formatted run are table rows again. */
  lemma FormatRunRows(rows: seq<string>, k: nat)
    requires forall j :: 0 <= j < |rows| ==> IsTableRow(rows[j])
    requires k < |rows|
    ensures IsTableRow(FormatRun(rows)[k])
  {
    if UniformRows(rows) {
      var table := CellTable(rows);
      RenderRowsAt(table, Widths(table), k);
    }
  }

  /** A table row is replaced by a table row. */
  lemma {:induction false} TableRowStaysRow(lines: seq<string>, k: nat)
    requires k < |lines| && IsTableRow(lines[k])
    ensures IsTableRow(FormatTables(lines)[k])
    decreases |lines|, 1
  {
    if k >= HeadLength(lines) {
      RowPastHead(lines, k);
    } else {
      RowInHead(lines, k);
    }
  }

  /** A table row of the first group is a row of the first formatted run. */
  lemma RowInHead(lines: seq<string>, k: nat)
    requires k < |lines| && IsTableRow(lines[k])
    requires k < HeadLength(lines)
    ensures IsTableRow(FormatTables(lines)[k])
  {
    var n := HeadLength(lines);
    assert IsTableRow(lines[0]);
    forall j | 0 <= j < n ensures IsTableRow(lines[..n][j]) {
      assert lines[..n][j] == lines[j];
    }
    FormatTablesHead(lines);
    FormatRunRows(lines[..n], k);
    PrefixIndex(FormatRun(lines[..n]), FormatTables(lines[n..]), k);
  }

  lemma PrefixIndex<T>(a: seq<T>, b: seq<T>, k: nat)
    requires k < |a|
    ensures (a + b)[k] == a[k]
  {
  }

  /** Inductive step of TableRowStaysRow: a row past the first group. */
  lemma {:induction false} RowPastHead(lines: seq<string>, k: nat)
    requires k < |lines| && IsTableRow(lines[k])
    requires k >= HeadLength(lines)
    ensures IsTableRow(FormatTables(lines)[k])
    decreases |lines|, 0
  {
    var n := HeadLength(lines);
    TailIndex(lines, n, k);
    TableRowStaysRow(lines[n..], k - n);
  }

  /** Empty lines are exactly where they were: no row becomes empty, no empty line moves. */
  lemma BlankLinesKept(lines: seq<string>, k: nat)
    requires k < |lines|
    ensures FormatTables(lines)[k] == "" <==> lines[k] == ""
  {
    if IsTableRow(lines[k]) {
      TableRowStaysRow(lines, k);
    } else {
      NonTableLineKept(lines, k);
    }
  }

  /** Each maximal run of table rows is replaced, in place, by its formatted block. */
  lemma RunFormattedInPlace(lines: seq<string>, lo: nat, hi: nat)
    requires MaximalRun(lines, lo, hi)
    ensures FormatTables(lines)[lo..hi] == FormatRun(lines[lo..hi])
  {
    RunBoundsOf(lines, lo, hi);
    RunBlockInPlace(lines, lo, hi, lines[lo..hi]);
  }

  /** lines[lo..hi] is the run of table rows that starts at `lo`, right after a line
      that is not a table row (or at the start): MaximalRun, with the end of the run
      found by TableRun. */
  predicate RunBounds(lines: seq<string>, lo: int, hi: int) {
    0 <= lo < hi <= |lines| && (lo == 0 || !IsTableRow(lines[lo - 1])) &&
    TableRun(lines[lo..]) == hi - lo
  }

  lemma RunBoundsOf(lines: seq<string>, lo: nat, hi: nat)
    requires MaximalRun(lines, lo, hi)
    ensures RunBounds(lines, lo, hi)
  {
    var s := lines[lo..];
    forall k | 0 <= k < hi - lo ensures IsTableRow(s[k]) {
      assert s[k] == lines[lo + k];
    }
    assert hi - lo == |s| || s[hi - lo] == lines[hi];
    TableRunExact(s, hi - lo);
  }

  /** RunFormattedInPlace, by induction on the groups FormatTables peels off; `run` is
      the run's rows, lines[lo..hi]. */
  lemma {:induction false} RunBlockInPlace(lines: seq<string>, lo: nat, hi: nat, run: seq<string>)
    requires RunBounds(lines, lo, hi) && run == lines[lo..hi]
    ensures FormatTables(lines)[lo..hi] == FormatRun(run)
    decreases |lines|, 2
  {
    if lo == 0 {
      RunAtHead(lines, hi, run);
    } else {
      RunPastHead(lines, lo, hi, run);
    }
  }

  /** Inductive step of RunBlockInPlace: a run past the first group is a run of the
      rest of the input. */
  lemma {:induction false} RunPastHead(lines: seq<string>, lo: nat, hi: nat, run: seq<string>)
    requires RunBounds(lines, lo, hi) && lo > 0 && run == lines[lo..hi]
    ensures FormatTables(lines)[lo..hi] == FormatRun(run)
    decreases |lines|, 1
  {
    var n := HeadLength(lines);
    RunBoundsShift(lines, lo, hi, n);
    DropSlice(lines, n, lo, hi);
    RunInRest(lines, lo, hi, n, run);
  }

  /** The run, shifted into the rest of the input, is formatted in place there, and so
      in the whole output. */
  lemma {:induction false} RunInRest(lines: seq<string>, lo: nat, hi: nat, n: nat, run: seq<string>)
    requires lines != [] && n == HeadLength(lines) && n <= lo <= hi <= |lines|
    requires RunBounds(lines[n..], lo - n, hi - n) && run == lines[n..][lo - n..hi - n]
    ensures FormatTables(lines)[lo..hi] == FormatRun(run)
    decreases |lines|, 0
  {
    RunBlockInPlace(lines[n..], lo - n, hi - n, run);
    RunShiftedBack(lines, lo, hi, n);
  }

  /** The output past the first group is the output of the rest of the input. */
  lemma RunShiftedBack(lines: seq<string>, lo: nat, hi: nat, n: nat)
    requires lines != [] && n == HeadLength(lines) && n <= lo <= hi <= |lines|
    ensures FormatTables(lines)[lo..hi] == FormatTables(lines[n..])[lo - n..hi - n]
  {
    FormatTablesTail(lines, n);
    DropSlice(FormatTables(lines), n, lo, hi);
  }

  lemma DropSlice<T>(s: seq<T>, n: nat, lo: nat, hi: nat)
    requires n <= lo <= hi <= |s|
    ensures s[n..][lo - n..hi - n] == s[lo..hi]
  {
  }

  lemma DropDrop<T>(s: seq<T>, n: nat, lo: nat)
    requires n <= lo <= |s|
    ensures s[n..][lo - n..] == s[lo..]
  {
  }

  /** A run at the head of the input is FormatTables's first group. */
  lemma RunAtHead(lines: seq<string>, hi: nat, run: seq<string>)
    requires RunBounds(lines, 0, hi) && run == lines[0..hi]
    ensures FormatTables(lines)[0..hi] == FormatRun(run)
  {
    assert lines[0..] == lines;
    assert lines[..hi] == run;
    var head := FormatRun(run);
    assert (head + FormatTables(lines[hi..]))[0..hi] == head;
  }

  /** A run past FormatTables's first group is a run of the rest. */
  lemma RunBoundsShift(lines: seq<string>, lo: nat, hi: nat, n: nat)
    requires RunBounds(lines, lo, hi) && lo > 0
    requires n == HeadLength(lines)
    ensures n <= lo && RunBounds(lines[n..], lo - n, hi - n)
  {
    if IsTableRow(lines[0]) {
      assert !IsTableRow(lines[lo - 1]);
    }
    DropDrop(lines, n, lo);
    assert lo - n == 0 || lines[n..][lo - n - 1] == lines[lo - 1];
  }

  /** With every run well formed, the block in place of a run is its formatted table,
      whose rows all have the same length; this covers a run that ends the input. */
  lemma TableReplacedInPlace(lines: seq<string>, lo: nat, hi: nat)
    requires TablesWellFormed(lines) && MaximalRun(lines, lo, hi)
    ensures UniformRows(lines[lo..hi])
    ensures FormatTables(lines)[lo..hi] == FormattedTable(lines[lo..hi])
    ensures forall k :: lo <= k < hi ==> |FormatTables(lines)[k]| == |FormatTables(lines)[lo]|
  {
    RunFormattedInPlace(lines, lo, hi);
    FormattedRowsEqualLength(lines[lo..hi]);
    forall k | lo <= k < hi ensures |FormatTables(lines)[k]| == |FormatTables(lines)[lo]| {
      assert FormatTables(lines)[k] == FormattedTable(lines[lo..hi])[k - lo];
      assert FormatTables(lines)[lo] == FormattedTable(lines[lo..hi])[0];
    }
  }

  /** The state of the FormatMarkdownTables loop as a function: `tableRows` is the
      buffer of table rows seen so far, `lines` what is still to be read. */
  function FormatFrom(tableRows: seq<string>, lines: seq<string>): (r: seq<string>)
    ensures |r| == |tableRows| + |lines|
    decreases |lines|
  {
    if lines == [] then FormatRun(tableRows)
    else if IsTableRow(lines[0]) then FormatFrom(tableRows + [lines[0]], lines[1..])
    else FormatRun(tableRows) + [lines[0]] + FormatFrom([], lines[1..])
  }

  /** One step of the loop. */
  lemma FormatFromStep(tableRows: seq<string>, lines: seq<string>)
    requires lines != []
    ensures FormatFrom(tableRows, lines)
         == if IsTableRow(lines[0]) then FormatFrom(tableRows + [lines[0]], lines[1..])
            else FormatRun(tableRows) + [lines[0]] + FormatFrom([], lines[1..])
  {
  }

  /** FormatTables peels off the run of table rows at its head. */
  lemma FormatTablesHead(lines: seq<string>)
    ensures FormatTables(lines)
         == FormatRun(lines[..TableRun(lines)]) + FormatTables(lines[TableRun(lines)..])
  {
    if lines == [] || !IsTableRow(lines[0]) {
      assert lines[..0] == [] && lines[0..] == lines;
      assert FormatRun([]) == [];
    }
  }

  /** The loop from a buffer computes the run it is in, then groups the rest by runs. */
  lemma {:induction false} FormatFromRuns(tableRows: seq<string>, lines: seq<string>)
    ensures FormatFrom(tableRows, lines)
         == FormatRun(tableRows + lines[..TableRun(lines)]) + FormatTables(lines[TableRun(lines)..])
    decreases |lines|
  {
    if lines == [] {
      assert tableRows + lines[..0] == tableRows;
    } else if IsTableRow(lines[0]) {
      FormatFromRuns(tableRows + [lines[0]], lines[1..]);
      RowExtendsRun(tableRows, lines);
    } else {
      FormatFromRuns([], lines[1..]);
      LineEndsRun(tableRows, lines);
    }
  }

  /** Inductive step of FormatFromRuns when a table row joins the buffer. */
  lemma RowExtendsRun(tableRows: seq<string>, lines: seq<string>)
    requires lines != [] && IsTableRow(lines[0])
    requires FormatFrom(tableRows + [lines[0]], lines[1..])
          == FormatRun(tableRows + [lines[0]] + lines[1..][..TableRun(lines[1..])])
           + FormatTables(lines[1..][TableRun(lines[1..])..])
    ensures FormatFrom(tableRows, lines)
         == FormatRun(tableRows + lines[..TableRun(lines)]) + FormatTables(lines[TableRun(lines)..])
  {
    var n := TableRun(lines);
    assert TableRun(lines[1..]) == n - 1;
    ShiftedRun(tableRows, lines, n);
  }

  lemma ShiftedRun(tableRows: seq<string>, lines: seq<string>, n: nat)
    requires 1 <= n <= |lines|
    ensures tableRows + [lines[0]] + lines[1..][..n - 1] == tableRows + lines[..n]
    ensures lines[1..][n - 1..] == lines[n..]
  {
    assert [lines[0]] + lines[1..][..n - 1] == lines[..n];
    Associative(tableRows, [lines[0]], lines[1..][..n - 1]);
  }

  /** Inductive step of FormatFromRuns when a non-table line flushes the buffer. */
  lemma LineEndsRun(tableRows: seq<string>, lines: seq<string>)
    requires lines != [] && !IsTableRow(lines[0])
    requires FormatFrom([], lines[1..])
          == FormatRun([] + lines[1..][..TableRun(lines[1..])])
           + FormatTables(lines[1..][TableRun(lines[1..])..])
    ensures FormatFrom(tableRows, lines)
         == FormatRun(tableRows + lines[..TableRun(lines)]) + FormatTables(lines[TableRun(lines)..])
  {
    var s := lines[1..];
    FormatTablesHead(s);
    assert [] + s[..TableRun(s)] == s[..TableRun(s)];
    assert TableRun(lines) == 0;
    assert tableRows + lines[..0] == tableRows;
    assert lines[0..] == lines;
    Associative(FormatRun(tableRows), [lines[0]], FormatTables(s));
  }

  /** The loop's buffer-and-flush formulation agrees with grouping by maximal runs. */
  lemma FormatFromTables(lines: seq<string>)
    ensures FormatFrom([], lines) == FormatTables(lines)
  {
    FormatFromRuns([], lines);
    FormatTablesHead(lines);
    assert [] + lines[..TableRun(lines)] == lines[..TableRun(lines)];
  }

  /** The buffered rows, ended by a non-table line or by the end of the input, form
      a maximal run, which TablesWellFormed makes formattable. */
  lemma RunUniform(lines: seq<string>, start: nat, i: nat, tableRows: seq<string>)
    requires Buffered(lines, start, i, tableRows)
    requires i == |lines| || !IsTableRow(lines[i])
    requires TablesWellFormed(lines)
    ensures UniformRows(tableRows)
  {
    if start < i {
      assert MaximalRun(lines, start, i);
    }
  }

  /** The loop's buffer: `tableRows` holds lines[start..i], a run of table rows that
      starts right after a line that is not one (or at the start). */
  predicate Buffered(lines: seq<string>, start: int, i: int, tableRows: seq<string>) {
    0 <= start <= i <= |lines| && tableRows == lines[start..i] &&
    (forall k :: start <= k < i ==> IsTableRow(lines[k])) &&
    (start == 0 || !IsTableRow(lines[start - 1]))
  }

  /** FormatMarkdownTables: table rows are buffered; a non-table line flushes the
      formatted buffer and itself, and a buffer left at the end is flushed too. */
  method FormatMarkdownTables(lines: seq<string>) returns (result: seq<string>)
    requires TablesWellFormed(lines)
    ensures result == FormatTables(lines)
  {
    result := [];
    var tableRows: seq<string> := [];
    ghost var start := 0;
    for i := 0 to |lines|
      invariant Buffered(lines, start, i, tableRows)
      invariant result + FormatFrom(tableRows, lines[i..]) == FormatFrom([], lines)
    {
      if IsTableRow(lines[i]) {
        BufferRow(lines, start, i, tableRows);
        tableRows := tableRows + [lines[i]];
      } else {
        result := FlushAt(lines, start, i, tableRows, result);
        tableRows := [];
        start := i + 1;
      }
    }
    result := FlushEnd(lines, start, tableRows, result);
    FormatFromTables(lines);
  }

  /** A table row joins the buffer. */
  lemma BufferRow(lines: seq<string>, start: nat, i: nat, tableRows: seq<string>)
    requires i < |lines| && IsTableRow(lines[i])
    requires Buffered(lines, start, i, tableRows)
    ensures Buffered(lines, start, i + 1, tableRows + [lines[i]])
    ensures FormatFrom(tableRows, lines[i..]) == FormatFrom(tableRows + [lines[i]], lines[i + 1..])
  {
    FormatFromStep(tableRows, lines[i..]);
    assert lines[i..][0] == lines[i] && lines[i..][1..] == lines[i + 1..];
    assert lines[start..i + 1] == tableRows + [lines[i]];
  }

  /** A line that is not a table row: the buffered rows are formatted and emitted,
      then the line itself. */
  method FlushAt(lines: seq<string>, ghost start: nat, i: nat, tableRows: seq<string>,
                 result: seq<string>) returns (result': seq<string>)
    requires i < |lines| && !IsTableRow(lines[i])
    requires Buffered(lines, start, i, tableRows)
    requires TablesWellFormed(lines)
    requires result + FormatFrom(tableRows, lines[i..]) == FormatFrom([], lines)
    ensures Buffered(lines, i + 1, i + 1, [])
    ensures result' + FormatFrom([], lines[i + 1..]) == FormatFrom([], lines)
  {
    RunUniform(lines, start, i, tableRows);
    var block := FormatMarkdownTable(tableRows);
    LineFlushes(lines, i, tableRows);
    Associative(result, block + [lines[i]], FormatFrom([], lines[i + 1..]));
    Associative(result, block, [lines[i]]);
    result' := result + block + [lines[i]];
  }

  /** The step of the loop at a line that is not a table row. */
  lemma LineFlushes(lines: seq<string>, i: nat, tableRows: seq<string>)
    requires i < |lines| && !IsTableRow(lines[i])
    ensures FormatFrom(tableRows, lines[i..])
         == FormatRun(tableRows) + [lines[i]] + FormatFrom([], lines[i + 1..])
  {
    FormatFromStep(tableRows, lines[i..]);
    assert lines[i..][0] == lines[i] && lines[i..][1..] == lines[i + 1..];
  }

  /** The end of the input: rows still buffered are formatted and emitted. */
  method FlushEnd(lines: seq<string>, ghost start: nat, tableRows: seq<string>,
                  result: seq<string>) returns (result': seq<string>)
    requires Buffered(lines, start, |lines|, tableRows)
    requires TablesWellFormed(lines)
    requires result + FormatFrom(tableRows, lines[|lines|..]) == FormatFrom([], lines)
    ensures result' == FormatFrom([], lines)
  {
    assert lines[|lines|..] == [];
    result' := result;
    if |tableRows| > 0 {
      RunUniform(lines, start, |lines|, tableRows);
      var block := FormatMarkdownTable(tableRows);
      result' := result + block;
    } else {
      assert result + [] == result;
    }
  }
}
