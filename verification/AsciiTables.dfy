/** The compiler's table aligner: a two-pass parser of delimited text, and a printer. */
module AsciiTables {
  import opened Basics

  const NEWLINE := '\n'

  // ----- text as a table

  /** The parts of `s` between the occurrences of `d`. */
  function Split(s: string, d: char): (parts: seq<string>)
    ensures parts != []
  {
    if s == "" then [""]
    else
      var parts := Split(Front(s), d);
      if Last(s) == d then parts + [""] else Front(parts) + [Last(parts) + [Last(s)]]
  }

  function Join(parts: seq<string>, sep: string): string
    requires parts != []
  {
    if |parts| == 1 then parts[0] else Join(Front(parts), sep) + sep + Last(parts)
  }

  /** The text ends where a new line would begin. */
  predicate Trailing(s: string) { s == "" || Last(s) == NEWLINE }

  function FieldsOf(lines: seq<string>, delim: char): (rows: seq<seq<string>>)
    ensures |rows| == |lines|
  {
    seq(|lines|, i requires 0 <= i < |lines| => Split(lines[i], delim))
  }

  /** The rows of a table, each a list of fields. */
  function RowsOf(s: string, delim: char): seq<seq<string>> {
    var lines := Split(s, NEWLINE);
    FieldsOf(if Trailing(s) then Front(lines) else lines, delim)
  }

  /** One more width for column `c`. */
  function Grow(w: seq<nat>, c: nat, x: nat): (r: seq<nat>)
    requires c <= |w|
    ensures |r| == Max(|w|, c + 1)
  {
    if c == |w| then w + [x] else w[c := Max(w[c], x)]
  }

  /** The widths after the first `n` fields of a row. */
  function GrowRow(w: seq<nat>, row: seq<string>, n: nat): (r: seq<nat>)
    requires n <= |row|
    ensures |r| == Max(|w|, n)
  {
    if n == 0 then w else Grow(GrowRow(w, row, n - 1), n - 1, |row[n - 1]|)
  }

  function WidthsOf(rows: seq<seq<string>>): seq<nat> {
    if rows == [] then [] else GrowRow(WidthsOf(Front(rows)), Last(rows), |Last(rows)|)
  }

  datatype Cell = Cell(text: string, width: nat, row: nat, col: nat, ncols: nat, nrows: nat)

  /** The `c`-th field of a row, or nothing. */
  function FieldAt(row: seq<string>, c: nat): string { if c < |row| then row[c] else "" }

  /** The first `n` cells of a row. */
  function RowCells(row: seq<string>, r: nat, widths: seq<nat>, nrows: nat, n: nat): (cs: seq<Cell>)
    requires n <= |widths|
    ensures |cs| == n
  {
    if n == 0 then []
    else RowCells(row, r, widths, nrows, n - 1)
         + [Cell(FieldAt(row, n - 1), widths[n - 1], r, n - 1, |widths|, nrows)]
  }

  function CellsOf(rows: seq<seq<string>>, widths: seq<nat>, nrows: nat, k: nat): seq<Cell>
    requires k <= |rows|
  {
    if k == 0 then []
    else CellsOf(rows, widths, nrows, k - 1) + RowCells(rows[k - 1], k - 1, widths, nrows, |widths|)
  }

  /** All cells: every row, every column, in order. */
  function TableCells(s: string, delim: char): seq<Cell> {
    var rows := RowsOf(s, delim);
    CellsOf(rows, WidthsOf(rows), |Split(s, NEWLINE)|, |rows|)
  }

  function Fill(fill: char, n: int): string {
    if n <= 0 then "" else Fill(fill, n - 1) + [fill]
  }

  function Padded(text: string, width: nat, fill: char): string {
    text + Fill(fill, width - |text|)
  }

  function PaddedRow(row: seq<string>, widths: seq<nat>, fill: char): (r: seq<string>)
    ensures |r| == |widths|
  {
    seq(|widths|, c requires 0 <= c < |widths| => Padded(FieldAt(row, c), widths[c], fill))
  }

  function RowText(row: seq<string>, widths: seq<nat>, fill: char, sep: string): string {
    if widths == [] then "" else Join(PaddedRow(row, widths, fill), sep)
  }

  function RowTexts(rows: seq<seq<string>>, widths: seq<nat>, fill: char, sep: string): (r: seq<string>)
    ensures |r| == |rows|
  {
    seq(|rows|, i requires 0 <= i < |rows| => RowText(rows[i], widths, fill, sep))
  }

  /** Every row with every column padded to its width, and a last newline where there was one. */
  function Aligned(s: string, delim: char, fill: char, sep: string): string {
    var rows := RowsOf(s, delim);
    var texts := RowTexts(rows, WidthsOf(rows), fill, sep) + if Trailing(s) then [""] else [];
    if texts == [] then "" else Join(texts, [NEWLINE])
  }

  // ----- widths are the maxima

  predicate RowFits(row: seq<string>, w: seq<nat>) {
    |row| <= |w| && forall c | 0 <= c < |row| :: |row[c]| <= w[c]
  }

  predicate Fits(rows: seq<seq<string>>, w: seq<nat>) {
    forall r | 0 <= r < |rows| :: RowFits(rows[r], w)
  }

  predicate Attained(rows: seq<seq<string>>, c: nat, x: nat) {
    exists r | 0 <= r < |rows| :: c < |rows[r]| && |rows[r][c]| == x
  }

  /** The width of a column is the length of its longest field, and there are as many columns as in the longest row. */
  lemma {:induction false} WidthsAreMaxima(rows: seq<seq<string>>)
    ensures Fits(rows, WidthsOf(rows))
    ensures forall c | 0 <= c < |WidthsOf(rows)| :: Attained(rows, c, WidthsOf(rows)[c])
  {
    hide GrowRow;
    if rows != [] {
      var front, row := Front(rows), Last(rows);
      WidthsAreMaxima(front);
      var v, w := WidthsOf(front), WidthsOf(rows);
      GrowRowMaxima(v, row, |row|);
      forall r | 0 <= r < |rows| ensures RowFits(rows[r], w) {
        if r < |front| {
          assert rows[r] == front[r] && RowFits(front[r], v);
        } else {
          assert rows[r] == row;
        }
      }
      forall c | 0 <= c < |w| ensures Attained(rows, c, w[c]) {
        if c < |row| && w[c] == |row[c]| {
          assert rows[|rows| - 1] == row;
        } else {
          assert Attained(front, c, v[c]);
          var r :| 0 <= r < |front| && c < |front[r]| && |front[r][c]| == v[c];
          assert rows[r] == front[r];
        }
      }
    }
  }

  lemma {:induction false} GrowRowMaxima(w: seq<nat>, row: seq<string>, n: nat)
    requires n <= |row|
    ensures var r := GrowRow(w, row, n);
            && (forall c | 0 <= c < n :: |row[c]| <= r[c])
            && (forall c | 0 <= c < |w| :: w[c] <= r[c])
            && (forall c | 0 <= c < |r| :: (c < |w| && r[c] == w[c]) || (c < n && r[c] == |row[c]|))
  {
    if n > 0 {
      GrowRowMaxima(w, row, n - 1);
    }
  }

  // ----- the first pass

  /** The widths that the first pass has seen after the prefix `p`; the current cell is not counted yet. */
  function SeenWidths(p: string, delim: char): seq<nat> { SeenIn(Split(p, NEWLINE), delim) }

  lemma SplitNext(s: string, i: nat, d: char)
    requires i < |s|
    ensures var parts := Split(s[..i], d);
            Split(s[..i + 1], d) == if s[i] == d then parts + [""] else Front(parts) + [Last(parts) + [s[i]]]
  {
    assert Front(s[..i + 1]) == s[..i];
  }

  /** The measuring part of `parseTableCells`: the widths, and the number of newlines. */
  method Measure(s: string, delim: char) returns (widths: seq<nat>, row: nat)
    ensures widths == WidthsOf(RowsOf(s, delim)) && row == |Split(s, NEWLINE)| - 1
  {
    hide WidthsOf, RowsOf, SeenWidths, CurrentFields;
    widths := [];
    NothingSeen(delim);
    assert s[..0] == "";
    var col, width := 0, 0;
    row := 0;
    for i := 0 to |s|
      invariant row == |Split(s[..i], NEWLINE)| - 1
      invariant var fields := CurrentFields(s[..i], delim); col == |fields| - 1 && width == |Last(fields)|
      invariant widths == SeenWidths(s[..i], delim)
    {
      SplitNext(s, i, NEWLINE);
      SeenNext(s, i, delim);
      var a := s[i];
      if a == NEWLINE {
        widths := Grow(widths, col, width);
        width, col, row := 0, 0, row + 1;
      } else if a == delim {
        widths := Grow(widths, col, width);
        width, col := 0, col + 1;
      } else {
        width := width + 1;
      }
    }
    assert s[..|s|] == s;
    SeenAtEnd(s, delim);
    if |s| > 0 && s[|s| - 1] != NEWLINE {
      widths := Grow(widths, col, width);
    }
  }

  /** What one character does to the current line, its fields and the widths seen. */
  lemma SeenNext(s: string, i: nat, delim: char)
    requires i < |s|
    ensures |CurrentFields(s[..i], delim)| - 1 <= |SeenWidths(s[..i], delim)|
    ensures var fields, fields' := CurrentFields(s[..i], delim), CurrentFields(s[..i + 1], delim);
            var seen, seen' := SeenWidths(s[..i], delim), SeenWidths(s[..i + 1], delim);
            if s[i] == NEWLINE then fields' == [""] && seen' == Grow(seen, |fields| - 1, |Last(fields)|)
            else if s[i] == delim then fields' == fields + [""] && seen' == Grow(seen, |fields| - 1, |Last(fields)|)
            else fields' == Front(fields) + [Last(fields) + [s[i]]] && seen' == seen
  {
    hide SeenIn, Grow;
    EnoughSeen(s[..i], delim);
    SplitNext(s, i, NEWLINE);
    var lines := Split(s[..i], NEWLINE);
    if s[i] == NEWLINE {
      SeenNewline(lines, delim);
    } else {
      SeenInLine(lines, s[i], delim);
    }
  }

  /** The fields of the line that the prefix `p` ends in. */
  function CurrentFields(p: string, delim: char): (fields: seq<string>)
    ensures fields != []
  {
    Split(Last(Split(p, NEWLINE)), delim)
  }

  function SeenIn(lines: seq<string>, delim: char): seq<nat>
    requires lines != []
  {
    var row := Split(Last(lines), delim);
    GrowRow(WidthsOf(FieldsOf(Front(lines), delim)), row, |row| - 1)
  }

  lemma SeenNewline(lines: seq<string>, delim: char)
    requires lines != []
    ensures var fields := Split(Last(lines), delim);
            Split(Last(lines + [""]), delim) == [""]
            && SeenIn(lines + [""], delim) == Grow(SeenIn(lines, delim), |fields| - 1, |Last(fields)|)
  {
    hide Grow;
    assert Front(lines + [""]) == lines;
    RowsNext(lines, delim);
  }

  lemma SplitPush(s: string, ch: char, d: char)
    ensures var parts := Split(s, d);
            Split(s + [ch], d) == if ch == d then parts + [""] else Front(parts) + [Last(parts) + [ch]]
  {
    assert Front(s + [ch]) == s;
  }

  lemma SeenInLine(lines: seq<string>, ch: char, delim: char)
    requires lines != []
    ensures var lines' := Front(lines) + [Last(lines) + [ch]];
            var fields, fields' := Split(Last(lines), delim), Split(Last(lines'), delim);
            if ch == delim then
              && fields' == fields + [""]
              && SeenIn(lines', delim) == Grow(SeenIn(lines, delim), |fields| - 1, |Last(fields)|)
            else
              fields' == Front(fields) + [Last(fields) + [ch]] && SeenIn(lines', delim) == SeenIn(lines, delim)
  {
    hide Grow, WidthsOf, FieldsOf, Split;
    var line := Last(lines);
    var line' := line + [ch];
    SplitPush(line, ch, delim);
    assert Front(Front(lines) + [line']) == Front(lines);
    var fields, fields' := Split(line, delim), Split(line', delim);
    var before := WidthsOf(FieldsOf(Front(lines), delim));
    if ch == delim {
      GrowRowPrefix(before, fields, fields', |fields|);
    } else {
      GrowRowPrefix(before, fields, fields', |fields| - 1);
    }
  }

  lemma RowsNext(lines: seq<string>, delim: char)
    requires lines != []
    ensures var rows := FieldsOf(lines, delim);
            rows == FieldsOf(Front(lines), delim) + [Split(Last(lines), delim)]
            && var row := Split(Last(lines), delim);
               WidthsOf(rows) == GrowRow(WidthsOf(FieldsOf(Front(lines), delim)), row, |row|)
  {
    var rows := FieldsOf(lines, delim);
    assert rows == FieldsOf(Front(lines), delim) + [Split(Last(lines), delim)];
    assert Front(rows) == FieldsOf(Front(lines), delim);
  }

  lemma {:induction false} GrowRowPrefix(w: seq<nat>, a: seq<string>, b: seq<string>, n: nat)
    requires n <= |a| && n <= |b| && a[..n] == b[..n]
    ensures GrowRow(w, a, n) == GrowRow(w, b, n)
  {
    if n > 0 {
      assert a[..n][n - 1] == a[n - 1] && b[..n][n - 1] == b[n - 1];
      assert a[..n - 1] == a[..n][..n - 1] && b[..n - 1] == b[..n][..n - 1];
      GrowRowPrefix(w, a, b, n - 1);
    }
  }

  lemma EnoughSeen(p: string, delim: char)
    ensures |CurrentFields(p, delim)| - 1 <= |SeenWidths(p, delim)|
  {
  }

  lemma NothingSeen(delim: char)
    ensures SeenWidths("", delim) == [] && CurrentFields("", delim) == [""]
  {
  }

  lemma SeenAtEnd(s: string, delim: char)
    ensures |CurrentFields(s, delim)| - 1 <= |SeenWidths(s, delim)|
    ensures var fields, seen := CurrentFields(s, delim), SeenWidths(s, delim);
            && (Trailing(s) ==> WidthsOf(RowsOf(s, delim)) == seen)
            && (!Trailing(s) ==> WidthsOf(RowsOf(s, delim)) == Grow(seen, |fields| - 1, |Last(fields)|))
  {
    hide WidthsOf, FieldsOf, Grow;
    EnoughSeen(s, delim);
    var lines := Split(s, NEWLINE);
    if Trailing(s) {
      assert Last(lines) == "";
    } else {
      RowsNext(lines, delim);
    }
  }

  // ----- the second pass

  /** The number of columns that the prefix `p` is known to need. */
  function Columns(p: string, delim: char): nat {
    Max(|SeenWidths(p, delim)|, |CurrentFields(p, delim)|)
  }

  lemma {:induction false} ColumnsGrow(s: string, i: nat, j: nat, delim: char)
    requires i <= j <= |s|
    ensures Columns(s[..i], delim) <= Columns(s[..j], delim)
    decreases j - i
  {
    hide SeenWidths, CurrentFields;
    if i < j {
      SeenNext(s, i, delim);
      ColumnsGrow(s, i + 1, j, delim);
    }
  }

  /** Every line begun in a non-empty text has at most as many fields as there are columns. */
  lemma EnoughColumns(s: string, i: nat, delim: char)
    requires i <= |s| && s != "" && (i == |s| ==> !Trailing(s))
    ensures |CurrentFields(s[..i], delim)| <= |WidthsOf(RowsOf(s, delim))|
  {
    ColumnsGrow(s, i, |s|, delim);
    assert s[..|s|] == s;
    SeenAtEnd(s, delim);
    if Trailing(s) {
      SeenNext(s, |s| - 1, delim);
      SeenNotEmpty(s, |s|, delim);
    }
  }

  lemma {:induction false} SeenNotEmpty(s: string, i: nat, delim: char)
    requires 0 < i <= |s| && Trailing(s[..i])
    ensures |SeenWidths(s[..i], delim)| > 0
  {
    hide SeenWidths, CurrentFields;
    SeenNext(s, i - 1, delim);
  }

  /** The template `finishRow`: the current cell, then empty ones up to the last column. */
  method FinishRow(cells: seq<Cell>, text: string, row: nat, col: nat, widths: seq<nat>, nrows: nat,
                   ghost before: seq<Cell>, ghost fields: seq<string>) returns (out: seq<Cell>)
    requires fields != [] && col == |fields| - 1 < |widths| && text == Last(fields)
    requires cells == before + RowCells(fields, row, widths, nrows, col)
    ensures out == before + RowCells(fields, row, widths, nrows, |widths|)
  {
    out := cells;
    var current := text;
    for c := col to |widths|
      invariant current == FieldAt(fields, c)
      invariant out == before + RowCells(fields, row, widths, nrows, c)
    {
      out := out + [Cell(current, widths[c], row, c, |widths|, nrows)];
      current := "";
    }
  }

  lemma {:induction false} SameCells(a: seq<string>, b: seq<string>, r: nat, widths: seq<nat>, nrows: nat, n: nat)
    requires n <= |widths| && forall c | 0 <= c < n :: FieldAt(a, c) == FieldAt(b, c)
    ensures RowCells(a, r, widths, nrows, n) == RowCells(b, r, widths, nrows, n)
  {
    if n > 0 {
      SameCells(a, b, r, widths, nrows, n - 1);
    }
  }

  lemma {:induction false} SameRows(a: seq<seq<string>>, b: seq<seq<string>>, widths: seq<nat>, nrows: nat, k: nat)
    requires k <= |a| && k <= |b| && a[..k] == b[..k]
    ensures CellsOf(a, widths, nrows, k) == CellsOf(b, widths, nrows, k)
  {
    if k > 0 {
      assert a[..k][k - 1] == a[k - 1] && b[..k][k - 1] == b[k - 1];
      assert a[..k - 1] == a[..k][..k - 1] && b[..k - 1] == b[..k][..k - 1];
      SameRows(a, b, widths, nrows, k - 1);
    }
  }

  /** A newline completes the row. */
  lemma HandOutRow(lines: seq<string>, delim: char, widths: seq<nat>, nrows: nat)
    requires lines != []
    ensures var rows, front := FieldsOf(lines, delim), FieldsOf(Front(lines), delim);
            CellsOf(rows, widths, nrows, |rows|)
            == CellsOf(front, widths, nrows, |front|)
               + RowCells(Split(Last(lines), delim), |front|, widths, nrows, |widths|)
  {
    var rows, front := FieldsOf(lines, delim), FieldsOf(Front(lines), delim);
    assert rows[..|front|] == front[..|front|];
    SameRows(rows, front, widths, nrows, |front|);
  }

  /** The cells of the rows above the current line. */
  function RowsAbove(p: string, delim: char, widths: seq<nat>, nrows: nat): seq<Cell> {
    var lines := Front(Split(p, NEWLINE));
    CellsOf(FieldsOf(lines, delim), widths, nrows, |lines|)
  }

  lemma AboveNext(s: string, i: nat, delim: char, widths: seq<nat>, nrows: nat)
    requires i < |s|
    ensures var fields, r := CurrentFields(s[..i], delim), |Split(s[..i], NEWLINE)| - 1;
            if s[i] == NEWLINE then
              RowsAbove(s[..i + 1], delim, widths, nrows)
              == RowsAbove(s[..i], delim, widths, nrows) + RowCells(fields, r, widths, nrows, |widths|)
            else RowsAbove(s[..i + 1], delim, widths, nrows) == RowsAbove(s[..i], delim, widths, nrows)
  {
    hide CellsOf, RowCells, FieldsOf;
    SplitNext(s, i, NEWLINE);
    var lines := Split(s[..i], NEWLINE);
    if s[i] == NEWLINE {
      assert Front(lines + [""]) == lines;
      HandOutRow(lines, delim, widths, nrows);
    } else {
      assert Front(Front(lines) + [Last(lines) + [s[i]]]) == Front(lines);
    }
  }

  lemma AboveAtEnd(s: string, delim: char, widths: seq<nat>, nrows: nat)
    ensures var rows := RowsOf(s, delim);
            var fields, r := CurrentFields(s, delim), |Split(s, NEWLINE)| - 1;
            CellsOf(rows, widths, nrows, |rows|)
            == RowsAbove(s, delim, widths, nrows)
               + if Trailing(s) then [] else RowCells(fields, r, widths, nrows, |widths|)
  {
    hide CellsOf, RowCells;
    if !Trailing(s) {
      HandOutRow(Split(s, NEWLINE), delim, widths, nrows);
    }
  }

  /** What was handed out after the prefix `p`: all complete rows, and the complete fields of the current one. */
  predicate Handed(p: string, delim: char, widths: seq<nat>, nrows: nat,
                   cells: seq<Cell>, text: string, row: nat, col: nat) {
    var fields := CurrentFields(p, delim);
    && row == |Split(p, NEWLINE)| - 1
    && col == |fields| - 1 <= |widths| && text == Last(fields)
    && cells == RowsAbove(p, delim, widths, nrows) + RowCells(fields, row, widths, nrows, col)
  }

  /** The handing-out part of `parseTableCells`. */
  method HandOut(s: string, delim: char, widths: seq<nat>, nrows: nat) returns (cells: seq<Cell>)
    requires widths == WidthsOf(RowsOf(s, delim))
    ensures cells == CellsOf(RowsOf(s, delim), widths, nrows, |RowsOf(s, delim)|)
  {
    hide RowsOf, RowsAbove, CurrentFields, RowCells, Split, Handed;
    cells := [];
    var text, row, col := "", 0, 0;
    NothingHanded(delim, widths, nrows);
    assert s[..0] == "";
    for i := 0 to |s|
      invariant Handed(s[..i], delim, widths, nrows, cells, text, row, col)
    {
      cells, text, row, col := HandNext(s, i, delim, widths, nrows, cells, text, row, col);
    }
    assert s[..|s|] == s;
    AboveAtEnd(s, delim, widths, nrows);
    cells := HandLast(s, delim, widths, nrows, cells, text, row, col);
  }

  /** One turn of the second pass. */
  method HandNext(s: string, i: nat, delim: char, widths: seq<nat>, nrows: nat,
                  cells: seq<Cell>, text: string, row: nat, col: nat)
    returns (cells': seq<Cell>, text': string, row': nat, col': nat)
    requires i < |s| && widths == WidthsOf(RowsOf(s, delim))
    requires Handed(s[..i], delim, widths, nrows, cells, text, row, col)
    ensures Handed(s[..i + 1], delim, widths, nrows, cells', text', row', col')
  {
    hide RowsOf, RowsAbove, CurrentFields, RowCells, Split;
    cells', text', row', col' := cells, text, row, col;
    EnoughColumns(s, i, delim);
    SplitNext(s, i, NEWLINE);
    SeenNext(s, i, delim);
    AboveNext(s, i, delim, widths, nrows);
    ghost var fields := CurrentFields(s[..i], delim);
    ghost var above := RowsAbove(s[..i], delim, widths, nrows);
    var a := s[i];
    if a == NEWLINE {
      cells' := FinishRow(cells', text', row', col', widths, nrows, above, fields);
      text', row', col' := "", row' + 1, 0;
      NoCells([""], row', widths, nrows);
    } else if a == delim {
      CellDone(fields, row', widths, nrows);
      cells' := cells' + [Cell(text', widths[col'], row', col', |widths|, nrows)];
      text', col' := "", col' + 1;
    } else {
      CellGrows(fields, a, row', widths, nrows);
      text' := text' + [a];
    }
  }

  /** The last row, if no newline has ended it. */
  method HandLast(s: string, delim: char, widths: seq<nat>, nrows: nat,
                  cells: seq<Cell>, text: string, row: nat, col: nat) returns (cells': seq<Cell>)
    requires widths == WidthsOf(RowsOf(s, delim))
    requires Handed(s, delim, widths, nrows, cells, text, row, col)
    ensures cells' == RowsAbove(s, delim, widths, nrows)
                      + if Trailing(s) then []
                        else RowCells(CurrentFields(s, delim), |Split(s, NEWLINE)| - 1, widths, nrows, |widths|)
  {
    hide RowsOf, RowsAbove, CurrentFields, RowCells, Split;
    cells' := cells;
    ghost var above, fields := RowsAbove(s, delim, widths, nrows), CurrentFields(s, delim);
    if |s| > 0 && s[|s| - 1] != NEWLINE {
      assert s[..|s|] == s;
      EnoughColumns(s, |s|, delim);
      cells' := FinishRow(cells', text, row, col, widths, nrows, above, fields);
    } else {
      TrailingFields(s, delim);
      NoCells(fields, row, widths, nrows);
    }
  }

  lemma NothingHanded(delim: char, widths: seq<nat>, nrows: nat)
    ensures Handed("", delim, widths, nrows, [], "", 0, 0)
  {
    Beginning(delim, widths, nrows);
  }

  lemma Beginning(delim: char, widths: seq<nat>, nrows: nat)
    ensures CurrentFields("", delim) == [""] && |Split("", NEWLINE)| == 1
    ensures RowsAbove("", delim, widths, nrows) == [] && RowCells([""], 0, widths, nrows, 0) == []
  {
  }

  lemma NoCells(fields: seq<string>, r: nat, widths: seq<nat>, nrows: nat)
    ensures RowCells(fields, r, widths, nrows, 0) == []
  {
  }

  lemma TrailingFields(s: string, delim: char)
    requires Trailing(s)
    ensures CurrentFields(s, delim) == [""]
  {
  }

  lemma CellDone(fields: seq<string>, r: nat, widths: seq<nat>, nrows: nat)
    requires fields != [] && |fields| <= |widths|
    ensures var n := |fields|;
            RowCells(fields + [""], r, widths, nrows, n)
            == RowCells(fields, r, widths, nrows, n - 1)
               + [Cell(Last(fields), widths[n - 1], r, n - 1, |widths|, nrows)]
  {
    SameCells(fields + [""], fields, r, widths, nrows, |fields| - 1);
  }

  lemma CellGrows(fields: seq<string>, a: char, r: nat, widths: seq<nat>, nrows: nat)
    requires fields != [] && |fields| - 1 <= |widths|
    ensures RowCells(Front(fields) + [Last(fields) + [a]], r, widths, nrows, |fields| - 1)
         == RowCells(fields, r, widths, nrows, |fields| - 1)
  {
    SameCells(Front(fields) + [Last(fields) + [a]], fields, r, widths, nrows, |fields| - 1);
  }

  /** `parseTableCells`: all rows are handed out, each with every column. */
  method ParseTableCells(s: string, delim: char) returns (cells: seq<Cell>)
    ensures cells == TableCells(s, delim)
  {
    var widths, row := Measure(s, delim);
    cells := HandOut(s, delim, widths, row + 1);
  }

  // ----- printing

  /** What one cell adds to the output. */
  function Printed(c: Cell, fill: char, sep: string): string {
    Padded(c.text, c.width, fill)
    + (if c.col + 1 < c.ncols then sep else "")
    + (if c.col + 1 == c.ncols && c.row + 1 < c.nrows then [NEWLINE] else "")
  }

  function PrintedAll(cells: seq<Cell>, fill: char, sep: string): string {
    if cells == [] then "" else PrintedAll(Front(cells), fill, sep) + Printed(Last(cells), fill, sep)
  }

  lemma {:induction false} PrintedAppend(a: seq<Cell>, b: seq<Cell>, fill: char, sep: string)
    ensures PrintedAll(a + b, fill, sep) == PrintedAll(a, fill, sep) + PrintedAll(b, fill, sep)
  {
    hide Printed, PrintedAll;
    if b == [] {
      assert a + b == a;
      PrintedNothing(fill, sep);
    } else {
      assert b == Front(b) + [Last(b)] && a + b == (a + Front(b)) + [Last(b)];
      PrintedAppend(a, Front(b), fill, sep);
      PrintedOne(Front(b), Last(b), fill, sep);
      PrintedOne(a + Front(b), Last(b), fill, sep);
    }
  }

  lemma {:induction false} PrintedRow(row: seq<string>, r: nat, widths: seq<nat>, nrows: nat, n: nat,
                                      fill: char, sep: string)
    requires 0 < n <= |widths|
    ensures PrintedAll(RowCells(row, r, widths, nrows, n), fill, sep)
         == Join(PaddedRow(row, widths, fill)[..n], sep)
            + if n < |widths| then sep else if r + 1 < nrows then [NEWLINE] else ""
  {
    hide Padded, Join, PrintedAll;
    var cells := RowCells(row, r, widths, nrows, n - 1);
    PrintedOne(cells, Cell(FieldAt(row, n - 1), widths[n - 1], r, n - 1, |widths|, nrows), fill, sep);
    JoinNext(PaddedRow(row, widths, fill), n, sep);
    if n > 1 {
      PrintedRow(row, r, widths, nrows, n - 1, fill, sep);
    } else {
      PrintedNothing(fill, sep);
    }
  }

  lemma PrintedOne(cells: seq<Cell>, c: Cell, fill: char, sep: string)
    ensures PrintedAll(cells + [c], fill, sep) == PrintedAll(cells, fill, sep) + Printed(c, fill, sep)
  {
    assert Front(cells + [c]) == cells;
  }

  lemma {:induction false} PrintedRows(rows: seq<seq<string>>, widths: seq<nat>, nrows: nat, k: nat,
                                       fill: char, sep: string)
    requires 0 < k <= |rows| && k <= nrows && widths != []
    ensures PrintedAll(CellsOf(rows, widths, nrows, k), fill, sep)
         == Join(RowTexts(rows, widths, fill, sep)[..k], [NEWLINE]) + if k < nrows then [NEWLINE] else ""
  {
    hide PaddedRow, Printed, RowCells, PrintedAll, Join, RowText;
    var texts := RowTexts(rows, widths, fill, sep);
    var row := RowCells(rows[k - 1], k - 1, widths, nrows, |widths|);
    PrintedAppend(CellsOf(rows, widths, nrows, k - 1), row, fill, sep);
    WholeRow(rows[k - 1], k - 1, widths, nrows, fill, sep);
    JoinNext(texts, k, [NEWLINE]);
    if k > 1 {
      PrintedRows(rows, widths, nrows, k - 1, fill, sep);
    } else {
      assert CellsOf(rows, widths, nrows, 0) == [];
      PrintedNothing(fill, sep);
    }
  }

  lemma PrintedNothing(fill: char, sep: string)
    ensures PrintedAll([], fill, sep) == ""
  {
  }

  lemma WholeRow(row: seq<string>, r: nat, widths: seq<nat>, nrows: nat, fill: char, sep: string)
    requires widths != []
    ensures PrintedAll(RowCells(row, r, widths, nrows, |widths|), fill, sep)
         == RowText(row, widths, fill, sep) + if r + 1 < nrows then [NEWLINE] else ""
  {
    PrintedRow(row, r, widths, nrows, |widths|, fill, sep);
    assert PaddedRow(row, widths, fill)[..|widths|] == PaddedRow(row, widths, fill);
  }

  lemma JoinNext(parts: seq<string>, k: nat, sep: string)
    requires 0 < k <= |parts|
    ensures Join(parts[..k], sep) == if k == 1 then parts[0] else Join(parts[..k - 1], sep) + sep + parts[k - 1]
  {
    assert Front(parts[..k]) == parts[..k - 1] && Last(parts[..k]) == parts[k - 1];
  }

  lemma SomeColumn(s: string, delim: char)
    requires RowsOf(s, delim) != []
    ensures WidthsOf(RowsOf(s, delim)) != []
  {
    var rows := RowsOf(s, delim);
    hide WidthsOf;
    WidthsAreMaxima(rows);
    assert RowFits(rows[0], WidthsOf(rows)) && rows[0] != [];
  }

  lemma PrintedIsAligned(s: string, delim: char, fill: char, sep: string)
    ensures PrintedAll(TableCells(s, delim), fill, sep) == Aligned(s, delim, fill, sep)
  {
    hide WidthsOf, RowsOf, Split, Join, CellsOf, RowTexts, PrintedAll, Trailing;
    var rows := RowsOf(s, delim);
    var widths, nrows := WidthsOf(rows), |Split(s, NEWLINE)|;
    var texts := RowTexts(rows, widths, fill, sep);
    RowCount(s, delim);
    assert texts[..|rows|] == texts && texts + [] == texts;
    if rows != [] {
      SomeColumn(s, delim);
      PrintedRows(rows, widths, nrows, |rows|, fill, sep);
      JoinNewline(texts);
    } else {
      NoRows(widths, nrows, fill, sep);
      assert texts + [""] == [""];
      JoinOne("", [NEWLINE]);
    }
  }

  lemma RowCount(s: string, delim: char)
    ensures |Split(s, NEWLINE)| == |RowsOf(s, delim)| + if Trailing(s) then 1 else 0
  {
  }

  lemma JoinNewline(texts: seq<string>)
    requires texts != []
    ensures Join(texts + [""], [NEWLINE]) == Join(texts, [NEWLINE]) + [NEWLINE]
  {
    assert Front(texts + [""]) == texts;
  }

  lemma JoinOne(text: string, sep: string)
    ensures Join([text], sep) == text
  {
  }

  lemma NoRows(widths: seq<nat>, nrows: nat, fill: char, sep: string)
    ensures PrintedAll(CellsOf([], widths, nrows, 0), fill, sep) == ""
  {
  }

  /** `alignTable` */
  method AlignTable(s: string, delim: char, fill: char, sep: string) returns (result: string)
    ensures result == Aligned(s, delim, fill, sep)
  {
    hide Aligned, Printed;
    result := "";
    var cells := ParseTableCells(s, delim);
    for i := 0 to |cells|
      invariant result == PrintedAll(cells[..i], fill, sep)
    {
      assert Front(cells[..i + 1]) == cells[..i];
      var text := PrintCell(cells[i], fill, sep);
      result := result + text;
    }
    assert cells[..|cells|] == cells;
    PrintedIsAligned(s, delim, fill, sep);
  }

  /** The body of the loop of `alignTable`. */
  method PrintCell(cell: Cell, fill: char, sep: string) returns (text: string)
    ensures text == Printed(cell, fill, sep)
  {
    text := cell.text;
    for i := |cell.text| to Max(|cell.text|, cell.width)
      invariant text == cell.text + Fill(fill, i - |cell.text|)
    {
      text := text + [fill];
    }
    if cell.col < cell.ncols - 1 {
      text := text + sep;
    }
    if cell.col == cell.ncols - 1 && cell.row < cell.nrows - 1 {
      text := text + [NEWLINE];
    }
  }

  // ----- aligning twice

  lemma {:induction false} SplitFree(s: string, d: char)
    ensures forall i | 0 <= i < |Split(s, d)| :: d !in Split(s, d)[i]
    ensures forall x: char | x !in s :: forall i | 0 <= i < |Split(s, d)| :: x !in Split(s, d)[i]
  {
    if s != "" {
      SplitFree(Front(s), d);
      assert s == Front(s) + [Last(s)];
    }
  }

  lemma {:induction false} SplitAppend(s: string, t: string, d: char)
    requires d !in t
    ensures Split(s + t, d) == Front(Split(s, d)) + [Last(Split(s, d)) + t]
  {
    if t == "" {
      assert s + t == s && Last(Split(s, d)) + t == Last(Split(s, d));
      assert Front(Split(s, d)) + [Last(Split(s, d))] == Split(s, d);
    } else {
      assert Front(s + t) == s + Front(t);
      assert t == Front(t) + [Last(t)];
      SplitAppend(s, Front(t), d);
      var parts := Split(s, d);
      assert Last(parts) + Front(t) + [Last(t)] == Last(parts) + t;
    }
  }

  /** Splitting undoes joining, as long as no part contains the separator. */
  lemma {:induction false} SplitJoin(parts: seq<string>, d: char)
    requires parts != [] && forall i | 0 <= i < |parts| :: d !in parts[i]
    ensures Split(Join(parts, [d]), d) == parts
  {
    hide Split;
    if |parts| == 1 {
      SplitAlone(parts[0], d);
    } else {
      var front := Join(Front(parts), [d]);
      SplitJoin(Front(parts), d);
      SplitAtEnd(front, d);
      SplitAppend(front + [d], Last(parts), d);
      assert Front(Front(parts) + [""]) == Front(parts) && "" + Last(parts) == Last(parts);
    }
  }

  lemma SplitAlone(s: string, d: char)
    requires d !in s
    ensures Split(s, d) == [s]
  {
    SplitAppend("", s, d);
    assert "" + s == s;
  }

  lemma SplitAtEnd(s: string, d: char)
    ensures Split(s + [d], d) == Split(s, d) + [""]
  {
    assert Front(s + [d]) == s;
  }

  lemma {:induction false} JoinFree(parts: seq<string>, sep: string, x: char)
    requires parts != [] && x !in sep && forall i | 0 <= i < |parts| :: x !in parts[i]
    ensures x !in Join(parts, sep)
  {
    if |parts| > 1 {
      JoinFree(Front(parts), sep, x);
    }
  }

  lemma {:induction false} FillFacts(fill: char, n: int)
    ensures |Fill(fill, n)| == (if n < 0 then 0 else n) && forall x | x in Fill(fill, n) :: x == fill
  {
    if n > 0 {
      FillFacts(fill, n - 1);
    }
  }

  lemma PaddedFacts(text: string, width: nat, fill: char)
    requires |text| <= width
    ensures |Padded(text, width, fill)| == width
    ensures Padded(Padded(text, width, fill), width, fill) == Padded(text, width, fill)
    ensures forall x: char | x != fill && x !in text :: x !in Padded(text, width, fill)
  {
    FillFacts(fill, width - |text|);
  }

  /** The fields of a table contain neither the delimiter nor a newline, and fit their columns. */
  lemma FieldFacts(s: string, delim: char, r: nat, c: nat)
    requires r < |RowsOf(s, delim)| && c < |WidthsOf(RowsOf(s, delim))|
    ensures var text := FieldAt(RowsOf(s, delim)[r], c);
            delim !in text && NEWLINE !in text && |text| <= WidthsOf(RowsOf(s, delim))[c]
  {
    hide WidthsOf;
    var rows := RowsOf(s, delim);
    if c < |rows[r]| {
      var lines := Split(s, NEWLINE);
      SplitFree(s, NEWLINE);
      SplitFree(lines[r], delim);
      WidthsAreMaxima(rows);
      assert RowFits(rows[r], WidthsOf(rows));
      assert rows[r] == Split(lines[r], delim);
    }
  }

  lemma PaddedRowFacts(s: string, delim: char, fill: char, r: nat)
    requires fill != NEWLINE && r < |RowsOf(s, delim)|
    ensures var w := WidthsOf(RowsOf(s, delim));
            var fields := PaddedRow(RowsOf(s, delim)[r], w, fill);
            && (forall c | 0 <= c < |w| :: NEWLINE !in fields[c] && |fields[c]| == w[c])
            && (fill != delim ==> forall c | 0 <= c < |w| :: delim !in fields[c])
            && PaddedRow(fields, w, fill) == fields
  {
    hide WidthsOf, RowsOf, Padded;
    var row, w := RowsOf(s, delim)[r], WidthsOf(RowsOf(s, delim));
    forall c | 0 <= c < |w|
      ensures var field := Padded(FieldAt(row, c), w[c], fill);
              && (fill != delim ==> delim !in field)
              && NEWLINE !in field && |field| == w[c] && Padded(field, w[c], fill) == field
    {
      FieldFacts(s, delim, r, c);
      PaddedFacts(FieldAt(row, c), w[c], fill);
    }
  }

  /** A printed row has no newline; by a delimiter other than the fill character it splits into its padded fields. */
  lemma RowTextFacts(s: string, delim: char, fill: char, sep: string, r: nat)
    requires fill != NEWLINE && NEWLINE !in sep && r < |RowsOf(s, delim)|
    ensures var w := WidthsOf(RowsOf(s, delim));
            var text := RowText(RowsOf(s, delim)[r], w, fill, sep);
            && NEWLINE !in text
            && (sep == [delim] && fill != delim ==> Split(text, delim) == PaddedRow(RowsOf(s, delim)[r], w, fill))
  {
    hide WidthsOf, RowsOf, PaddedRow;
    PaddedRowFacts(s, delim, fill, r);
    SomeColumn(s, delim);
    var fields := PaddedRow(RowsOf(s, delim)[r], WidthsOf(RowsOf(s, delim)), fill);
    if sep == [delim] && fill != delim {
      SplitJoin(fields, delim);
    }
    JoinFree(fields, sep, NEWLINE);
  }

  function PaddedRows(rows: seq<seq<string>>, w: seq<nat>, fill: char): (r: seq<seq<string>>)
    ensures |r| == |rows|
  {
    seq(|rows|, i requires 0 <= i < |rows| => PaddedRow(rows[i], w, fill))
  }

  /** Rows of equal, known widths have those widths. */
  lemma WidthsOfUniform(rows: seq<seq<string>>, w: seq<nat>)
    requires rows != [] && forall i | 0 <= i < |rows| :: |rows[i]| == |w|
    requires forall i, c | 0 <= i < |rows| && 0 <= c < |w| :: |rows[i][c]| == w[c]
    ensures WidthsOf(rows) == w
  {
    hide WidthsOf;
    var v := WidthsOf(rows);
    WidthsAreMaxima(rows);
    assert RowFits(rows[0], v);
    forall c | 0 <= c < |v| ensures c < |w| && v[c] == w[c] {
      assert Attained(rows, c, v[c]);
    }
    if |v| > 0 {
      var widest := v[|v| - 1];
      assert |v| - 1 < |w|;
    }
  }

  lemma {:induction false} TrailingIff(s: string)
    ensures Trailing(s) <==> Last(Split(s, NEWLINE)) == ""
  {
  }

  lemma {:induction false} SplitSingle(s: string, d: char)
    requires |Split(s, d)| == 1
    ensures Split(s, d) == [s]
  {
    if s != "" {
      SplitSingle(Front(s), d);
      assert Front(s) + [Last(s)] == s;
    }
  }

  lemma {:induction false} JoinEmptyIff(parts: seq<string>, sep: string)
    requires parts != []
    ensures Join(parts, sep) == ""
       <==> (forall c | 0 <= c < |parts| :: parts[c] == "") && (|parts| == 1 || sep == "")
  {
    if |parts| > 1 {
      JoinEmptyIff(Front(parts), sep);
      assert parts == Front(parts) + [Last(parts)];
    }
  }

  /** Some character is neither the delimiter nor a newline. */
  predicate HasText(s: string, delim: char) { exists i | 0 <= i < |s| :: s[i] != delim && s[i] != NEWLINE }

  predicate Only(s: string, d: char) { forall i | 0 <= i < |s| :: s[i] == d }

  predicate AllEmpty(parts: seq<string>) { forall k | 0 <= k < |parts| :: parts[k] == "" }

  predicate AllOnly(lines: seq<string>, d: char) { forall k | 0 <= k < |lines| :: Only(lines[k], d) }

  lemma {:induction false} PartsEmptyIff(s: string, d: char)
    ensures AllEmpty(Split(s, d)) <==> Only(s, d)
  {
    hide AllEmpty, Only;
    if s == "" {
      NoText(d);
      OnlyNothing(d);
    } else {
      var parts := Split(Front(s), d);
      assert s == Front(s) + [Last(s)];
      PartsEmptyIff(Front(s), d);
      OnlyGrows(Front(s), Last(s), d);
      EmptyGrows(parts, Last(s));
    }
  }

  lemma NoText(d: char)
    ensures AllEmpty([""]) && AllOnly([""], d) && !HasText("", d)
  {
  }

  lemma EmptyGrows(parts: seq<string>, x: char)
    requires parts != []
    ensures AllEmpty(parts + [""]) <==> AllEmpty(parts)
    ensures !AllEmpty(Front(parts) + [Last(parts) + [x]])
  {
    var more := parts + [""];
    assert more[|parts|] == "" && forall k | 0 <= k < |parts| :: more[k] == parts[k];
    assert (Front(parts) + [Last(parts) + [x]])[|parts| - 1] != "";
  }

  lemma {:induction false} LinesOnlyIff(s: string, delim: char)
    ensures AllOnly(Split(s, NEWLINE), delim) <==> !HasText(s, delim)
  {
    hide AllOnly, HasText;
    if s == "" {
      NoText(delim);
    } else {
      assert s == Front(s) + [Last(s)];
      LinesOnlyIff(Front(s), delim);
      LineGrows(Split(Front(s), NEWLINE), Last(s), delim);
      TextGrows(Front(s), Last(s), delim);
    }
  }

  lemma TextGrows(s: string, x: char, delim: char)
    ensures HasText(s + [x], delim) <==> HasText(s, delim) || (x != delim && x != NEWLINE)
  {
    assert (s + [x])[|s|] == x && forall i | 0 <= i < |s| :: (s + [x])[i] == s[i];
  }

  lemma LineGrows(lines: seq<string>, x: char, delim: char)
    requires lines != []
    ensures var more := if x == NEWLINE then lines + [""] else Front(lines) + [Last(lines) + [x]];
            AllOnly(more, delim) <==> AllOnly(lines, delim) && (x == NEWLINE || x == delim)
  {
    hide Only;
    var more := if x == NEWLINE then lines + [""] else Front(lines) + [Last(lines) + [x]];
    var n := |lines| - 1;
    assert forall k | 0 <= k < n :: more[k] == lines[k];
    OnlyNothing(delim);
    OnlyGrows(lines[n], x, delim);
    if x == NEWLINE {
      assert more[n] == lines[n] && more[n + 1] == "";
    } else {
      assert more[n] == lines[n] + [x];
    }
  }

  lemma OnlyGrows(s: string, x: char, d: char)
    ensures Only(s + [x], d) <==> Only(s, d) && x == d
  {
    assert (s + [x])[|s|] == x && forall i | 0 <= i < |s| :: (s + [x])[i] == s[i];
  }

  /** Some column is wide enough to be seen. */
  predicate Visible(w: seq<nat>) { exists c | 0 <= c < |w| :: w[c] > 0 }

  /** That is so exactly if the text has more than delimiters and newlines. */
  lemma VisibleIff(s: string, delim: char)
    ensures Visible(WidthsOf(RowsOf(s, delim))) <==> HasText(s, delim)
  {
    hide WidthsOf, Split, HasText, Only, Visible, AllEmpty;
    var rows, lines := RowsOf(s, delim), Split(s, NEWLINE);
    LinesOnlyIff(s, delim);
    TrailingIff(s);
    OnlyNothing(delim);
    SeenIff(rows);
    forall k | 0 <= k < |lines| ensures AllEmpty(Split(lines[k], delim)) <==> Only(lines[k], delim) {
      PartsEmptyIff(lines[k], delim);
    }
    assert forall r | 0 <= r < |rows| :: rows[r] == Split(lines[r], delim);
    assert forall k | |rows| <= k < |lines| :: lines[k] == "";
  }

  /** Columns are visible exactly if some field is not empty. */
  lemma SeenIff(rows: seq<seq<string>>)
    ensures Visible(WidthsOf(rows)) <==> exists r | 0 <= r < |rows| :: !AllEmpty(rows[r])
  {
    hide WidthsOf;
    WidthsAreMaxima(rows);
    var w := WidthsOf(rows);
    if Visible(w) {
      var c :| 0 <= c < |w| && w[c] > 0;
      assert Attained(rows, c, w[c]);
      var r :| 0 <= r < |rows| && c < |rows[r]| && |rows[r][c]| == w[c];
      assert !AllEmpty(rows[r]);
    }
    if r :| 0 <= r < |rows| && !AllEmpty(rows[r]) {
      assert RowFits(rows[r], w);
    }
  }

  lemma OnlyNothing(d: char)
    ensures Only("", d)
  {
  }

  /** A last line that is not empty is printed as an empty one exactly if nothing separates its empty columns. */
  lemma LastRowEmptyIff(s: string, delim: char, fill: char, sep: string)
    requires !Trailing(s) && fill != NEWLINE
    ensures var rows := RowsOf(s, delim);
            && rows != []
            && (RowText(Last(rows), WidthsOf(rows), fill, sep) == "" <==> sep == "" && !Visible(WidthsOf(rows)))
  {
    hide WidthsOf, PaddedRow, Join;
    var rows, lines := RowsOf(s, delim), Split(s, NEWLINE);
    var w, row := WidthsOf(rows), Last(rows);
    SomeColumn(s, delim);
    TrailingIff(s);
    assert row == Split(Last(lines), delim) && rows[|rows| - 1] == row;
    PaddedRowFacts(s, delim, fill, |rows| - 1);
    JoinEmptyIff(PaddedRow(row, w, fill), sep);
    if |w| == 1 {
      WidthsAreMaxima(rows);
      assert RowFits(rows[|rows| - 1], w);
      SplitSingle(Last(lines), delim);
      assert w[0] > 0;
    }
  }

  predicate EndsLine(s: string) { s != "" && Last(s) == NEWLINE }

  /** The lines of the output are the printed rows. */
  lemma AlignedLines(s: string, delim: char, fill: char, sep: string)
    requires fill != NEWLINE && NEWLINE !in sep
    ensures var rows := RowsOf(s, delim);
            var out := Aligned(s, delim, fill, sep);
            && (Trailing(out) == Trailing(s) <==> Trailing(s) || sep != "" || HasText(s, delim))
            && Split(out, NEWLINE) == RowTexts(rows, WidthsOf(rows), fill, sep) + if Trailing(s) then [""] else []
  {
    hide WidthsOf, RowsOf, RowText, Split, Visible, HasText;
    VisibleIff(s, delim);
    var rows := RowsOf(s, delim);
    var texts := RowTexts(rows, WidthsOf(rows), fill, sep);
    var all := texts + if Trailing(s) then [""] else [];
    forall r | 0 <= r < |rows| ensures NEWLINE !in texts[r] {
      RowTextFacts(s, delim, fill, sep, r);
    }
    if !Trailing(s) {
      LastRowEmptyIff(s, delim, fill, sep);
      assert Last(all) == texts[|texts| - 1];
    }
    SplitJoin(all, NEWLINE);
    TrailingIff(Aligned(s, delim, fill, sep));
  }

  /**
     The output ends with a newline where the input does, and where it does not,
     exactly unless the input has several lines, no separator is printed and there
     is nothing but delimiters on the lines.
     */
  lemma NewlineKeptIff(s: string, delim: char, fill: char, sep: string)
    requires fill != NEWLINE && NEWLINE !in sep
    ensures EndsLine(Aligned(s, delim, fill, sep)) == EndsLine(s)
       <==> Trailing(s) || sep != "" || HasText(s, delim) || NEWLINE !in s
  {
    hide WidthsOf, RowsOf, RowText, HasText, Aligned, Split;
    var out := Aligned(s, delim, fill, sep);
    AlignedLines(s, delim, fill, sep);
    RowCount(s, delim);
    OneLineIff(s);
    OneLineIff(out);
    TrailingIff(out);
    TrailingIff(s);
    SplitSingleEmpty(out);
  }

  lemma OneLineIff(s: string)
    ensures |Split(s, NEWLINE)| == 1 <==> NEWLINE !in s
  {
    hide Split;
    SplitFree(s, NEWLINE);
    if |Split(s, NEWLINE)| == 1 {
      SplitSingle(s, NEWLINE);
      assert Split(s, NEWLINE)[0] == s;
    }
    if NEWLINE !in s {
      SplitAlone(s, NEWLINE);
    }
  }

  lemma SplitSingleEmpty(s: string)
    ensures s == "" <==> Split(s, NEWLINE) == [""]
  {
    if Split(s, NEWLINE) == [""] {
      SplitSingle(s, NEWLINE);
    }
  }

  /** An empty line above a line of two empty fields, aligned without a separator, becomes one ended empty line. */
  lemma NewlineAdded()
    ensures !EndsLine("\n\t") && Aligned("\n\t", '\t', ' ', "") == "\n"
  {
    hide RowsOf, WidthsOf, RowText, Join;
    var rows := [[""], ["", ""]];
    SampleRows();
    SampleWidths(rows);
    forall r | 0 <= r < 2 ensures RowText(rows[r], [0, 0], ' ', "") == "" {
      SampleText(rows[r]);
    }
    assert RowTexts(rows, [0, 0], ' ', "") == ["", ""] && ["", ""] + [] == ["", ""] == [""] + [""];
    JoinOne("", [NEWLINE]);
    JoinNewline([""]);
  }

  lemma SampleRows()
    ensures RowsOf("\n\t", '\t') == [[""], ["", ""]]
  {
    hide Split;
    var s := "\n\t";
    SplitNothing(NEWLINE);
    SplitNothing('\t');
    SplitPush("", NEWLINE, NEWLINE);
    SplitPush("\n", '\t', NEWLINE);
    SplitPush("", '\t', '\t');
    assert "" + [NEWLINE] == "\n" && "\n" + ['\t'] == s && "" + ['\t'] == "\t";
    assert Split(s, NEWLINE) == ["", "\t"] && Split("\t", '\t') == ["", ""];
  }

  lemma SplitNothing(d: char)
    ensures Split("", d) == [""]
  {
  }

  lemma SampleWidths(rows: seq<seq<string>>)
    requires rows == [[""], ["", ""]]
    ensures WidthsOf(rows) == [0, 0]
  {
    hide WidthsOf;
    WidthsAreMaxima(rows);
    var w := WidthsOf(rows);
    assert RowFits(rows[1], w);
    forall c | 0 <= c < |w| ensures c < 2 && w[c] == 0 {
      assert Attained(rows, c, w[c]);
    }
    assert |w| >= 2 && w[|w| - 1] == 0;
  }

  lemma SampleText(row: seq<string>)
    requires row == [""] || row == ["", ""]
    ensures RowText(row, [0, 0], ' ', "") == ""
  {
    hide Join;
    JoinEmptyIff(PaddedRow(row, [0, 0], ' '), "");
  }

  /** With the delimiter as separator, the output has the padded rows for its rows, and the same widths. */
  lemma AlignedRows(s: string, delim: char, fill: char)
    requires delim != NEWLINE && fill != delim && fill != NEWLINE
    ensures var rows := RowsOf(s, delim);
            var out := RowsOf(Aligned(s, delim, fill, [delim]), delim);
            out == PaddedRows(rows, WidthsOf(rows), fill) && WidthsOf(out) == WidthsOf(rows)
  {
    hide WidthsOf, RowText, Split, PaddedRow, Aligned, Trailing;
    var sep, rows := [delim], RowsOf(s, delim);
    var w := WidthsOf(rows);
    var texts := RowTexts(rows, w, fill, sep);
    AlignedLines(s, delim, fill, sep);
    assert Front(texts + [""]) == texts && texts + [] == texts;
    forall r | 0 <= r < |rows|
      ensures Split(texts[r], delim) == PaddedRow(rows[r], w, fill)
      ensures forall c | 0 <= c < |w| :: |PaddedRow(rows[r], w, fill)[c]| == w[c]
    {
      RowTextFacts(s, delim, fill, sep, r);
      PaddedRowFacts(s, delim, fill, r);
    }
    var out := RowsOf(Aligned(s, delim, fill, sep), delim);
    assert out == FieldsOf(texts, delim);
    assert out == PaddedRows(rows, w, fill);
    if rows != [] {
      WidthsOfUniform(out, w);
    }
  }

  /** Aligning with the delimiter as separator is idempotent. */
  lemma AlignedTwice(s: string, delim: char, fill: char)
    requires delim != NEWLINE && fill != delim && fill != NEWLINE
    ensures var out := Aligned(s, delim, fill, [delim]);
            Aligned(out, delim, fill, [delim]) == out
  {
    hide WidthsOf, Split, PaddedRow, RowsOf, Trailing;
    var sep, rows := [delim], RowsOf(s, delim);
    var w := WidthsOf(rows);
    AlignedLines(s, delim, fill, sep);
    AlignedRows(s, delim, fill);
    var rows' := PaddedRows(rows, w, fill);
    forall r | 0 <= r < |rows| ensures RowText(rows'[r], w, fill, sep) == RowText(rows[r], w, fill, sep) {
      PaddedRowFacts(s, delim, fill, r);
    }
    assert RowTexts(rows', w, fill, sep) == RowTexts(rows, w, fill, sep);
  }

  // ----- the columns of the output

  /** Where column `c` begins in every line of the output. */
  function Offset(w: seq<nat>, sep: string, c: nat): nat
    requires c <= |w|
  {
    if c == 0 then 0 else Offset(w, sep, c - 1) + w[c - 1] + |sep|
  }

  lemma {:induction false} OffsetFront(w: seq<nat>, sep: string, c: nat)
    requires w != [] && c < |w|
    ensures Offset(Front(w), sep, c) == Offset(w, sep, c)
  {
    if c > 0 { OffsetFront(w, sep, c - 1); }
  }

  lemma {:induction false} JoinLength(parts: seq<string>, w: seq<nat>, sep: string)
    requires |parts| == |w| > 0 && forall i | 0 <= i < |w| :: |parts[i]| == w[i]
    ensures |Join(parts, sep)| + |sep| == Offset(w, sep, |w|)
    decreases |w|
  {
    if |w| > 1 {
      JoinLength(Front(parts), Front(w), sep);
      OffsetFrontAll(w, sep);
    }
  }

  lemma OffsetFrontAll(w: seq<nat>, sep: string)
    requires |w| > 1
    ensures Offset(Front(w), sep, |w| - 1) == Offset(w, sep, |w| - 1)
  {
    OffsetFront(w, sep, |w| - 2);
  }

  /** In joined parts of these lengths, part `c` is at its offset, with the separator behind it but for the last. */
  predicate PartAt(line: string, w: seq<nat>, sep: string, c: nat, part: string)
    requires c < |w|
  {
    var at := Offset(w, sep, c);
    && at + w[c] <= |line| && line[at..at + w[c]] == part
    && if c + 1 < |w| then at + w[c] + |sep| <= |line| && line[at + w[c]..at + w[c] + |sep|] == sep
       else at + w[c] == |line|
  }

  lemma {:induction false} JoinAt(parts: seq<string>, w: seq<nat>, sep: string, c: nat)
    requires |parts| == |w| && c < |w| && forall i | 0 <= i < |w| :: |parts[i]| == w[i]
    ensures PartAt(Join(parts, sep), w, sep, c, parts[c])
    decreases |w|
  {
    hide PartAt, Offset;
    var last := |w| - 1;
    if last == 0 {
      OnlyPart(parts, w, sep);
    } else {
      var front := Join(Front(parts), sep);
      JoinLength(Front(parts), Front(w), sep);
      OffsetFrontAll(w, sep);
      if c == last {
        LastPart(front, w, sep, parts[last]);
      } else {
        JoinAt(Front(parts), Front(w), sep, c);
        OffsetFront(w, sep, c);
        EarlierPart(front, w, sep, c, parts[c], parts[last]);
      }
    }
  }

  lemma OnlyPart(parts: seq<string>, w: seq<nat>, sep: string)
    requires |parts| == |w| == 1 && |parts[0]| == w[0]
    ensures PartAt(Join(parts, sep), w, sep, 0, parts[0])
  {
    assert parts[0][0..w[0]] == parts[0];
  }

  lemma LastPart(front: string, w: seq<nat>, sep: string, part: string)
    requires |w| > 1 && |part| == w[|w| - 1] && |front| + |sep| == Offset(w, sep, |w| - 1)
    ensures PartAt(front + sep + part, w, sep, |w| - 1, part)
  {
    hide Offset;
  }

  lemma EarlierPart(front: string, w: seq<nat>, sep: string, c: nat, part: string, more: string)
    requires |w| > 1 && c < |w| - 1 && Offset(Front(w), sep, c) == Offset(w, sep, c)
    requires PartAt(front, Front(w), sep, c, part)
    ensures PartAt(front + sep + more, w, sep, c, part)
  {
    hide Offset;
    JoinedThere(front, sep, more, Offset(w, sep, c), w[c]);
  }

  lemma JoinedThere(front: string, sep: string, part: string, at: nat, n: nat)
    requires at + n <= |front|
    ensures var line := front + sep + part;
            && line[at..at + n] == front[at..at + n]
            && line[|front|..|front| + |sep|] == sep && line[|front| + |sep|..] == part
            && forall i, j | 0 <= i <= j <= |front| :: line[i..j] == front[i..j]
  {
  }

  /** A padded field: the text, and then nothing but fill. */
  lemma PaddedIs(text: string, width: nat, fill: char)
    requires |text| <= width
    ensures var p := Padded(text, width, fill);
            && |p| == width && p[..|text|] == text && forall i | |text| <= i < width :: p[i] == fill
  {
    FillFacts(fill, width - |text|);
    var p, rest := Padded(text, width, fill), Fill(fill, width - |text|);
    forall i | |text| <= i < width ensures p[i] == fill {
      assert p[i] == rest[i - |text|] && rest[i - |text|] in rest;
    }
  }

  /**
     The columns are aligned: in every line of the output, column `c` begins at the
     same place, with the field of that line, then fill up to the width of the
     column, then the separator or the end of the line.
     */
  lemma ColumnsAlign(s: string, delim: char, fill: char, sep: string, r: nat, c: nat)
    requires fill != NEWLINE && NEWLINE !in sep
    requires r < |RowsOf(s, delim)| && c < |WidthsOf(RowsOf(s, delim))|
    ensures var (rows, w) := (RowsOf(s, delim), WidthsOf(RowsOf(s, delim)));
            var lines := Split(Aligned(s, delim, fill, sep), NEWLINE);
            var (at, text) := (Offset(w, sep, c), FieldAt(rows[r], c));
            && r < |lines| && |text| <= w[c] && at + w[c] <= |lines[r]|
            && lines[r][at..at + |text|] == text
            && (forall i | at + |text| <= i < at + w[c] :: lines[r][i] == fill)
            && if c + 1 < |w| then
                 at + w[c] + |sep| <= |lines[r]| && lines[r][at + w[c]..at + w[c] + |sep|] == sep
               else at + w[c] == |lines[r]|
  {
    hide WidthsOf, RowsOf, Split, Aligned, Padded, Join, Offset, HasText, Trailing;
    var rows := RowsOf(s, delim);
    var w := WidthsOf(rows);
    AlignedLines(s, delim, fill, sep);
    var line := Split(Aligned(s, delim, fill, sep), NEWLINE)[r];
    assert line == RowText(rows[r], w, fill, sep);
    PaddedRowFacts(s, delim, fill, r);
    var fields := PaddedRow(rows[r], w, fill);
    JoinAt(fields, w, sep, c);
    FieldFacts(s, delim, r, c);
    var text, at := FieldAt(rows[r], c), Offset(w, sep, c);
    PaddedIs(text, w[c], fill);
    assert line[at..at + w[c]] == fields[c];
    assert line[at..at + |text|] == fields[c][..|text|];
    forall i | at + |text| <= i < at + w[c] ensures line[i] == fill {
      assert line[i] == fields[c][i - at];
    }
  }
}
