/**
 The multi-line refresh of linenoise, against a small terminal: a grid of cells
 with a cursor that wraps only when the next character is written. Rows are
 unbounded below and end at row 0 above. The control functions are CUU, CUD, CUF
 and EL of ECMA-48, sections 8.3.22, 8.3.19, 8.3.20 and 8.3.41.
 */
module LinenoiseScreen {
  import opened Basics

  /** `col == cols` is the cursor on the last column with a wrap pending. */
  datatype Screen = Screen(cells: (int, int) -> char, row: int, col: int)

  datatype Out = Print(c: char) | CR | LF | Up(n: int) | Down(n: int) | Right(n: int) | EraseRight

  const BLANK := ' '

  function Put(s: Screen, r: int, c: int, ch: char): (int, int) -> char {
    (x: int, y: int) => if x == r && y == c then ch else s.cells(x, y)
  }

  function Erased(s: Screen, r: int, from: int): (int, int) -> char {
    (x: int, y: int) => if x == r && y >= from then BLANK else s.cells(x, y)
  }

  function Count(n: int): int { if n == 0 then 1 else n }

  function Step(cols: nat, s: Screen, o: Out): Screen {
    var at := if s.col == cols then cols - 1 else s.col;
    match o
    case Print(c) =>
      if s.col == cols then Screen(Put(s, s.row + 1, 0, c), s.row + 1, 1)
      else Screen(Put(s, s.row, s.col, c), s.row, s.col + 1)
    case CR => s.(col := 0)
    case LF => s.(row := s.row + 1, col := at)
    case Up(n) => s.(row := Max(0, s.row - Count(n)), col := at)
    case Down(n) => s.(row := s.row + Count(n), col := at)
    case Right(n) => s.(col := if at + Count(n) < cols then at + Count(n) else cols - 1)
    case EraseRight => s.(cells := Erased(s, s.row, at))
  }

  function Run(cols: nat, s: Screen, os: seq<Out>): Screen
    decreases |os|
  {
    if os == [] then s else Run(cols, Step(cols, s, os[0]), os[1..])
  }

  lemma {:induction false} RunAppend(cols: nat, s: Screen, a: seq<Out>, b: seq<Out>)
    ensures Run(cols, s, a + b) == Run(cols, Run(cols, s, a), b)
    decreases |a|
  {
    hide Step;
    if a == [] {
      assert a + b == b;
    } else {
      assert (a + b)[1..] == a[1..] + b;
      RunAppend(cols, Step(cols, s, a[0]), a[1..], b);
    }
  }

  lemma RunOne(cols: nat, s: Screen, o: Out)
    ensures Run(cols, s, [o]) == Step(cols, s, o)
  {
    hide Step;
    assert [o][1..] == [];
  }

  lemma RunTwo(cols: nat, s: Screen, a: Out, b: Out)
    ensures Run(cols, s, [a, b]) == Step(cols, Step(cols, s, a), b)
  {
    hide Step;
    assert [a, b][1..] == [b];
    RunOne(cols, Step(cols, s, a), b);
  }

  // ----- what a refresh writes

  function Prints(text: string): seq<Out> {
    seq(|text|, i requires 0 <= i < |text| => Print(text[i]))
  }

  const CLEAR_UP: seq<Out> := [CR, EraseRight, Up(1)]

  function ClearUps(k: nat): seq<Out> {
    if k == 0 then [] else ClearUps(k - 1) + CLEAR_UP
  }

  function Downs(n: int): seq<Out> { if n > 0 then [Down(n)] else [] }

  function Ups(n: int): seq<Out> { if n > 0 then [Up(n)] else [] }

  /** The state that a refresh reads, besides the buffer: `struct linenoiseState`. */
  datatype Metrics = Metrics(plen: nat, len: nat, pos: nat, oldpos: nat, maxrows: nat)

  function Rows(cols: nat, m: Metrics): int
    requires cols > 0
  {
    (m.plen + m.len + cols - 1) / cols
  }

  /** The cursor would stay behind the last column, so a new line is opened. */
  predicate NeedsNewline(cols: nat, m: Metrics)
    requires cols > 0
  {
    m.pos > 0 && m.pos == m.len && (m.pos + m.plen) % cols == 0
  }

  function Erase(cols: nat, m: Metrics): seq<Out>
    requires cols > 0
  {
    var rpos := (m.plen + m.oldpos + cols) / cols;
    Downs(m.maxrows - rpos) + ClearUps(if m.maxrows > 0 then m.maxrows - 1 else 0) + [CR, EraseRight]
  }

  function Place(cols: nat, m: Metrics): seq<Out>
    requires cols > 0
  {
    var newline := NeedsNewline(cols, m);
    var rows := Rows(cols, m) + if newline then 1 else 0;
    var rpos2 := (m.plen + m.pos + cols) / cols;
    var col := (m.plen + m.pos) % cols;
    (if newline then [LF, CR] else [])
    + Ups(rows - rpos2)
    + (if col != 0 then [CR, Right(col)] else [CR])
  }

  function Refresh(cols: nat, prompt: string, text: string, m: Metrics): seq<Out>
    requires cols > 0
  {
    Erase(cols, m) + Prints(prompt + text) + Place(cols, m)
  }

  function NewMaxRows(cols: nat, m: Metrics): nat
    requires cols > 0
  {
    Max(m.maxrows, Rows(cols, m) + if NeedsNewline(cols, m) then 1 else 0)
  }

  // ----- what is on the screen

  /** From row `top` on, the screen shows the text wrapped at the right margin, and nothing else. */
  ghost predicate Displays(s: Screen, top: int, cols: nat, text: string) {
    forall r, c | r >= top && 0 <= c < cols :: s.cells(r, c) == CellOf(text, (r - top) * cols + c)
  }

  function CellOf(text: string, i: int): char { if 0 <= i < |text| then text[i] else BLANK }

  /** The cursor is at offset `at` of the shown text, within the rows used so far, and all rows below are blank. */
  ghost predicate InSync(s: Screen, top: int, cols: nat, at: nat, maxrows: nat)
    requires cols > 0
  {
    && s.row == top + at / cols && s.col == at % cols
    && at / cols < Max(maxrows, 1)
    && BlankBelow(s, top + Max(maxrows, 1), cols)
  }

  ghost predicate BlankBelow(s: Screen, row: int, cols: nat) {
    forall r, c | r >= row && 0 <= c < cols :: s.cells(r, c) == BLANK
  }

  ghost predicate SameAbove(s: Screen, t: Screen, row: int, cols: nat) {
    forall r, c | r < row && 0 <= c < cols :: s.cells(r, c) == t.cells(r, c)
  }

  // ----- arithmetic of rows and columns

  /** The cell after offset `i` is to its right, or the first of the next row. */
  lemma NextCell(i: nat, cols: nat)
    requires cols > 0
    ensures if i % cols == cols - 1 then (i + 1) / cols == i / cols + 1 && (i + 1) % cols == 0
            else (i + 1) / cols == i / cols && (i + 1) % cols == i % cols + 1
  {
    assert i == i / cols * cols + i % cols;
    if i % cols == cols - 1 {
      assert i + 1 == (i / cols + 1) * cols + 0 by { assert i / cols * cols + cols == (i / cols + 1) * cols; }
      DivMod(i / cols + 1, 0, cols);
    } else {
      DivMod(i / cols, i % cols + 1, cols);
    }
  }

  lemma RowsOf(n: nat, cols: nat)
    requires cols > 0
    ensures (n + cols - 1) / cols == if n == 0 then 0 else (n - 1) / cols + 1
    ensures (n + cols) / cols == n / cols + 1
  {
    if n == 0 {
      DivMod(0, cols - 1, cols);
    } else {
      AddRow(n - 1, cols);
    }
    AddRow(n, cols);
  }

  lemma AddRow(n: nat, cols: nat)
    requires cols > 0
    ensures (n + cols) / cols == n / cols + 1
  {
    assert n == n / cols * cols + n % cols;
    assert n + cols == (n / cols + 1) * cols + n % cols by { assert n / cols * cols + cols == (n / cols + 1) * cols; }
    DivMod(n / cols + 1, n % cols, cols);
  }

  lemma DivMonotone(a: nat, b: nat, cols: nat)
    requires cols > 0 && a <= b
    ensures a / cols <= b / cols
    decreases b - a
  {
    if a < b {
      NextCell(a, cols);
      DivMonotone(a + 1, b, cols);
    }
  }

  lemma SmallDiv(a: nat, cols: nat)
    requires a < cols
    ensures a / cols == 0 && a % cols == a
  {
    DivMod(0, a, cols);
  }

  // ----- erasing

  /** `k` times: erase the row and go up. */
  lemma {:induction false} ClearUpsRun(cols: nat, s: Screen, k: nat)
    requires cols > 0 && s.row >= k && 0 <= s.col < cols
    ensures var t := Run(cols, s, ClearUps(k));
            && t.row == s.row - k && (if k > 0 then t.col == 0 else t.col == s.col)
            && forall r, c | 0 <= c < cols :: t.cells(r, c) == if s.row - k < r <= s.row then BLANK else s.cells(r, c)
  {
    if k > 0 {
      ClearUpsRun(cols, s, k - 1);
      var u := Run(cols, s, ClearUps(k - 1));
      RunAppend(cols, s, ClearUps(k - 1), CLEAR_UP);
      assert CLEAR_UP == [CR, EraseRight] + [Up(1)];
      RunAppend(cols, u, [CR, EraseRight], [Up(1)]);
      RunTwo(cols, u, CR, EraseRight);
      RunOne(cols, Run(cols, u, [CR, EraseRight]), Up(1));
    }
  }

  /** From a synchronised screen, the erasing part blanks everything from `top` on and leaves the cursor there. */
  lemma EraseRun(cols: nat, s: Screen, top: int, m: Metrics)
    requires cols > 0 && top >= 0 && InSync(s, top, cols, m.plen + m.oldpos, m.maxrows)
    ensures var t := Run(cols, s, Erase(cols, m));
            t.row == top && t.col == 0 && BlankBelow(t, top, cols) && SameAbove(s, t, top, cols)
  {
    hide ClearUps, Step, Run;
    var at := m.plen + m.oldpos;
    RowsOf(at, cols);
    var down := Downs(m.maxrows - (at + cols) / cols);
    var k := if m.maxrows > 0 then m.maxrows - 1 else 0;
    var s1 := Run(cols, s, down);
    DownRun(cols, s, m.maxrows - (at + cols) / cols);
    ClearUpsRun(cols, s1, k);
    var s2 := Run(cols, s1, ClearUps(k));
    RunAppend(cols, s, down, ClearUps(k));
    RunAppend(cols, s, down + ClearUps(k), [CR, EraseRight]);
    EraseRow(cols, s2);
  }

  lemma EraseRow(cols: nat, s: Screen)
    requires cols > 0
    ensures var t := Run(cols, s, [CR, EraseRight]);
            && t.row == s.row && t.col == 0
            && forall r, c | 0 <= c < cols :: t.cells(r, c) == if r == s.row then BLANK else s.cells(r, c)
  {
    RunTwo(cols, s, CR, EraseRight);
  }

  lemma DownRun(cols: nat, s: Screen, n: int)
    requires 0 <= s.col < cols
    ensures Run(cols, s, Downs(n)) == s.(row := s.row + Max(n, 0))
  {
    if n > 0 {
      RunOne(cols, s, Down(n));
    }
  }

  // ----- printing

  /** The cursor after `n` characters were printed from the first column of row `top`. */
  predicate After(s: Screen, top: int, cols: nat, n: nat)
    requires cols > 0
  {
    if n == 0 then s.row == top && s.col == 0
    else s.row == top + (n - 1) / cols && s.col == (n - 1) % cols + 1
  }

  /** The next character goes to the cell of its offset, whether or not a wrap is pending. */
  lemma PrintStep(cols: nat, s: Screen, top: int, n: nat, ch: char)
    requires cols > 0 && After(s, top, cols, n)
    ensures var t := Step(cols, s, Print(ch));
            After(t, top, cols, n + 1) && t.cells == Put(s, top + n / cols, n % cols, ch)
  {
    if n == 0 {
      SmallDiv(0, cols);
    } else {
      NextCell(n - 1, cols);
    }
  }

  lemma {:induction false} PrintsRun(cols: nat, s: Screen, top: int, text: string)
    requires cols > 0 && s.row == top && s.col == 0
    ensures var t := Run(cols, s, Prints(text));
            && After(t, top, cols, |text|)
            && forall r, c | 0 <= c < cols ::
                 var at := (r - top) * cols + c;
                 t.cells(r, c) == if 0 <= at < |text| then text[at] else s.cells(r, c)
    decreases |text|
  {
    hide Step, After;
    var n := |text|;
    if n > 0 {
      var front := text[..n - 1];
      PrintsRun(cols, s, top, front);
      var u := Run(cols, s, Prints(front));
      assert Prints(text) == Prints(front) + [Print(text[n - 1])];
      RunAppend(cols, s, Prints(front), [Print(text[n - 1])]);
      RunOne(cols, u, Print(text[n - 1]));
      PrintStep(cols, u, top, n - 1, text[n - 1]);
      var t := Run(cols, s, Prints(text));
      forall r, c | 0 <= c < cols
        ensures t.cells(r, c) == if 0 <= (r - top) * cols + c < n then text[(r - top) * cols + c] else s.cells(r, c)
      {
        SameCell(r - top, c, cols, n - 1);
        var at := (r - top) * cols + c;
        assert at != n - 1 ==> t.cells(r, c) == u.cells(r, c);
        assert 0 <= at < n - 1 ==> front[at] == text[at];
      }
    } else {
      NothingPrinted(cols, s, top);
    }
  }

  lemma NothingPrinted(cols: nat, s: Screen, top: int)
    requires cols > 0 && s.row == top && s.col == 0
    ensures Run(cols, s, Prints("")) == s && After(s, top, cols, 0)
  {
  }

  lemma SameCell(r: int, c: int, cols: nat, i: nat)
    requires 0 <= c < cols
    ensures r * cols + c == i <==> r == i / cols && c == i % cols
  {
    DivMod(r, c, cols);
  }

  // ----- placing the cursor

  lemma UpRun(cols: nat, s: Screen, n: int)
    requires cols > 0 && 0 <= s.col <= cols && s.row >= 0 && n <= s.row
    ensures var t := Run(cols, s, Ups(n)); t.cells == s.cells && t.row == s.row - Max(n, 0)
  {
    if n > 0 {
      RunOne(cols, s, Up(n));
    }
  }

  /** After the text was printed, the last part puts the cursor at offset `pos` of the buffer. */
  lemma PlaceRun(cols: nat, s: Screen, top: int, m: Metrics)
    requires top >= 0 && m.plen < cols && m.pos <= m.len && After(s, top, cols, m.plen + m.len)
    ensures var t := Run(cols, s, Place(cols, m));
            && t.cells == s.cells
            && t.row == top + (m.plen + m.pos) / cols && t.col == (m.plen + m.pos) % cols
  {
    hide Step, After;
    var newline := NeedsNewline(cols, m);
    var nl := if newline then [LF, CR] else [];
    var rows := Rows(cols, m) + if newline then 1 else 0;
    var up := rows - (m.plen + m.pos + cols) / cols;
    var col := (m.plen + m.pos) % cols;
    var last := if col != 0 then [CR, Right(col)] else [CR];
    var s1 := Run(cols, s, nl);
    AfterNewline(cols, s, top, m);
    UpRun(cols, s1, up);
    var s2 := Run(cols, s1, Ups(up));
    RunAppend(cols, s, nl, Ups(up));
    RunAppend(cols, s, nl + Ups(up), last);
    SetColumn(cols, s2, col);
  }

  lemma SetColumn(cols: nat, s: Screen, col: nat)
    requires col < cols
    ensures Run(cols, s, if col != 0 then [CR, Right(col)] else [CR]) == s.(col := col)
  {
    if col != 0 {
      RunTwo(cols, s, CR, Right(col));
    } else {
      RunOne(cols, s, CR);
    }
  }

  /** Whether a new line was opened or not, the cursor is in the last used row, never above that of `pos`. */
  lemma AfterNewline(cols: nat, s: Screen, top: int, m: Metrics)
    requires top >= 0 && m.plen < cols && m.pos <= m.len && After(s, top, cols, m.plen + m.len)
    ensures var newline := NeedsNewline(cols, m);
            var t := Run(cols, s, if newline then [LF, CR] else []);
            var rows := Rows(cols, m) + if newline then 1 else 0;
            var up := rows - (m.plen + m.pos + cols) / cols;
            && t.cells == s.cells && 0 <= t.col <= cols && 0 <= up + 1 && up <= t.row && t.row >= 0
            && t.row - Max(up, 0) == top + (m.plen + m.pos) / cols
  {
    hide Rows;
    RowsFacts(cols, m);
    if NeedsNewline(cols, m) {
      RunTwo(cols, s, LF, CR);
    }
  }

  lemma RowsFacts(cols: nat, m: Metrics)
    requires m.plen < cols && m.pos <= m.len
    ensures var n, at := m.plen + m.len, m.plen + m.pos;
            && Rows(cols, m) == (if n == 0 then 0 else (n - 1) / cols + 1)
            && (at + cols) / cols == at / cols + 1 && at / cols <= n / cols && m.plen / cols == 0
            && (n > 0 ==> 0 <= (n - 1) / cols)
            && (n > 0 && at < n ==> at / cols <= (n - 1) / cols)
            && (n > 0 ==> if (n - 1) % cols == cols - 1 then n / cols == (n - 1) / cols + 1 && n % cols == 0
                          else n / cols == (n - 1) / cols && n % cols == (n - 1) % cols + 1)
  {
    var n, at := m.plen + m.len, m.plen + m.pos;
    RowsOf(n, cols);
    RowsOf(at, cols);
    DivMonotone(at, n, cols);
    if n > 0 {
      NextCell(n - 1, cols);
      DivMonotone(0, n - 1, cols);
      if at < n {
        DivMonotone(at, n - 1, cols);
      }
    }
    SmallDiv(m.plen, cols);
  }

  // ----- the whole refresh

  /**
     From a synchronised screen, a refresh leaves exactly the prompt and the
     buffer on it, wrapped at the right margin, with the cursor at `pos`, and it
     leaves a synchronised screen for the next one. Rows above are not touched.
     */
  lemma RefreshShows(cols: nat, s: Screen, top: int, prompt: string, text: string, m: Metrics)
    requires top >= 0 && |prompt| < cols && m.plen == |prompt| && m.len == |text| && m.pos <= m.len
    requires InSync(s, top, cols, m.plen + m.oldpos, m.maxrows)
    ensures var t := Run(cols, s, Refresh(cols, prompt, text, m));
            && Displays(t, top, cols, prompt + text)
            && InSync(t, top, cols, m.plen + m.pos, NewMaxRows(cols, m))
            && SameAbove(s, t, top, cols)
  {
    hide Erase, Place, Prints, InSync, After, NewMaxRows;
    var s1 := Run(cols, s, Erase(cols, m));
    EraseRun(cols, s, top, m);
    var s2 := Run(cols, s1, Prints(prompt + text));
    PrintsRun(cols, s1, top, prompt + text);
    PlaceRun(cols, s2, top, m);
    RunAppend(cols, s, Erase(cols, m), Prints(prompt + text));
    RunAppend(cols, s, Erase(cols, m) + Prints(prompt + text), Place(cols, m));
    var t := Run(cols, s2, Place(cols, m));
    forall r, c | 0 <= c < cols
      ensures r >= top ==> t.cells(r, c) == CellOf(prompt + text, (r - top) * cols + c)
      ensures r < top ==> t.cells(r, c) == s.cells(r, c)
    {
      if r >= top {
        NotNegative(r - top, cols);
      } else {
        Negative(r - top, c, cols);
      }
    }
    SyncAgain(cols, t, top, prompt + text, m);
  }

  /** Writing the prompt on fresh rows gives the synchronised screen that editing starts from. */
  lemma PromptShows(cols: nat, s: Screen, prompt: string)
    requires |prompt| < cols && s.col == 0 && BlankBelow(s, s.row, cols)
    ensures var t := Run(cols, s, Prints(prompt));
            && Displays(t, s.row, cols, prompt + "")
            && InSync(t, s.row, cols, |prompt|, 0)
            && SameAbove(s, t, s.row, cols)
  {
    var t := Run(cols, s, Prints(prompt));
    PrintsRun(cols, s, s.row, prompt);
    SmallDiv(|prompt|, cols);
    if prompt != [] {
      SmallDiv(|prompt| - 1, cols);
    }
    assert prompt + "" == prompt;
    forall r, c | 0 <= c < cols
      ensures r >= s.row ==> t.cells(r, c) == CellOf(prompt, (r - s.row) * cols + c)
      ensures r < s.row ==> t.cells(r, c) == s.cells(r, c)
      ensures r >= s.row + 1 ==> t.cells(r, c) == BLANK
    {
      if r >= s.row {
        NotNegative(r - s.row, cols);
        if r > s.row {
          AtLeastOnce(r - s.row, cols);
        }
      } else {
        Negative(r - s.row, c, cols);
      }
    }
  }

  /** One refresh: the buffer and the cursor in it. */
  datatype Shot = Shot(text: string, pos: nat)

  /** The screen, `oldpos` and `maxrows` after a run of refreshes that starts behind the prompt. */
  function AfterShots(cols: nat, s: Screen, prompt: string, shots: seq<Shot>): (Screen, nat, nat)
    requires cols > 0
  {
    if shots == [] then (s, 0, 0)
    else
      var (t, oldpos, maxrows) := AfterShots(cols, s, prompt, shots[..|shots| - 1]);
      var shot := shots[|shots| - 1];
      var m := Metrics(|prompt|, |shot.text|, shot.pos, oldpos, maxrows);
      (Run(cols, t, Refresh(cols, prompt, shot.text, m)), shot.pos, NewMaxRows(cols, m))
  }

  /** In every run of refreshes, each one shows exactly its own buffer, whatever was shown before. */
  lemma {:induction false} EveryShotShows(cols: nat, s: Screen, prompt: string, shots: seq<Shot>)
    requires |prompt| < cols && s.row >= 0 && InSync(s, s.row, cols, |prompt|, 0)
    requires forall i | 0 <= i < |shots| :: shots[i].pos <= |shots[i].text|
    ensures var (t, oldpos, maxrows) := AfterShots(cols, s, prompt, shots);
            && InSync(t, s.row, cols, |prompt| + oldpos, maxrows) && SameAbove(s, t, s.row, cols)
            && (shots != [] ==>
                  var shot := shots[|shots| - 1];
                  && Displays(t, s.row, cols, prompt + shot.text)
                  && t.row == s.row + (|prompt| + shot.pos) / cols && t.col == (|prompt| + shot.pos) % cols)
  {
    hide Refresh, NewMaxRows, Displays;
    if shots != [] {
      var front, shot := shots[..|shots| - 1], shots[|shots| - 1];
      EveryShotShows(cols, s, prompt, front);
      var (t, oldpos, maxrows) := AfterShots(cols, s, prompt, front);
      RefreshShows(cols, t, s.row, prompt, shot.text, Metrics(|prompt|, |shot.text|, shot.pos, oldpos, maxrows));
    }
  }

  lemma NotNegative(r: int, cols: nat)
    requires r >= 0
    ensures r * cols >= 0
  {
  }

  lemma Negative(r: int, c: int, cols: nat)
    requires r < 0 && 0 <= c < cols
    ensures r * cols + c < 0
  {
    AtLeastOnce(-r, cols);
    assert -r * cols == -(r * cols);
  }

  lemma SyncAgain(cols: nat, t: Screen, top: int, shown: string, m: Metrics)
    requires m.plen < cols && m.pos <= m.len && |shown| == m.plen + m.len
    requires Displays(t, top, cols, shown)
    requires t.row == top + (m.plen + m.pos) / cols && t.col == (m.plen + m.pos) % cols
    ensures InSync(t, top, cols, m.plen + m.pos, NewMaxRows(cols, m))
  {
    var n, at := m.plen + m.len, m.plen + m.pos;
    RowsOf(n, cols);
    DivMonotone(at, n, cols);
    if n > 0 {
      NextCell(n - 1, cols);
      if at < n {
        DivMonotone(at, n - 1, cols);
      }
    }
    SmallDiv(m.plen, cols);
    var used := Max(NewMaxRows(cols, m), 1);
    forall r, c | r >= top + used && 0 <= c < cols ensures t.cells(r, c) == BLANK {
      BehindLast(r - top, c, cols, n, used);
    }
  }

  lemma BehindLast(r: int, c: int, cols: nat, n: nat, used: int)
    requires 0 <= c < cols && r >= used && used >= (if n == 0 then 0 else (n - 1) / cols + 1)
    ensures r * cols + c >= n
  {
    if n > 0 {
      assert n - 1 == (n - 1) / cols * cols + (n - 1) % cols;
      var q := (n - 1) / cols + 1;
      assert q * cols == (n - 1) / cols * cols + cols;
      assert r * cols == q * cols + (r - q) * cols;
      NotNegative(r - q, cols);
    } else {
      NotNegative(r, cols);
    }
  }
}
