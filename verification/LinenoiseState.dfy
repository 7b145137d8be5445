/** `struct linenoiseState` and the commands that update it in place. */
module LinenoiseState {
  import opened Basics
  import opened LinenoiseScreen
  import opened LinenoiseHistory
  import opened LinenoiseEdit

  const NUL := '\0'

  /** What is behind the output descriptor. */
  class Terminal {
    const cols: nat
    var screen: Screen

    constructor (cols: nat, screen: Screen)
      ensures this.cols == cols && this.screen == screen
    {
      this.cols, this.screen := cols, screen;
    }

    method Write(ab: seq<Out>)
      modifies this
      ensures screen == Run(cols, old(screen), ab)
    {
      screen := Run(cols, screen, ab);
    }
  }

  /** `n` characters at `src`, copied to `dst`. */
  function Copied(s: seq<char>, dst: nat, src: nat, n: nat): seq<char>
    requires dst + n <= |s| && src + n <= |s|
  {
    s[..dst] + s[src..src + n] + s[dst + n..]
  }

  /** `memmove(buf + dst, buf + src, n)` */
  method MemMove(buf: array<char>, dst: nat, src: nat, n: nat)
    requires dst + n <= buf.Length && src + n <= buf.Length
    modifies buf
    ensures buf[..] == Copied(old(buf[..]), dst, src, n)
  {
    ghost var s := buf[..];
    forall i | 0 <= i < n {
      buf[dst + i] := buf[src + i];
    }
    forall i | 0 <= i < buf.Length
      ensures buf[i] == Copied(s, dst, src, n)[i]
    {
      CopiedAt(s, dst, src, n, i);
      assert dst <= i < dst + n ==> buf[dst + (i - dst)] == s[src + (i - dst)];
    }
  }

  lemma CopiedAt(s: seq<char>, dst: nat, src: nat, n: nat, i: nat)
    requires dst + n <= |s| && src + n <= |s| && i < |s|
    ensures |Copied(s, dst, src, n)| == |s|
    ensures Copied(s, dst, src, n)[i] == if dst <= i < dst + n then s[i - dst + src] else s[i]
  {
  }

  /** `strncpy(buf, s, n)` */
  method StrNCpy(buf: array<char>, s: string, n: nat)
    requires n <= buf.Length
    modifies buf
    ensures forall i {:trigger buf[i]} | 0 <= i < buf.Length ::
              buf[i] == if i < n then if i < |s| then s[i] else NUL else old(buf[i])
  {
    forall i | 0 <= i < n {
      buf[i] := if i < |s| then s[i] else NUL;
    }
  }

  /** `strdup(buf)`: the characters before the first NUL. */
  method StrDup(buf: array<char>, ghost len: nat) returns (s: string)
    requires len < buf.Length && buf[len] == NUL && NoNul(buf[..len])
    ensures s == buf[..len]
  {
    var i := 0;
    while buf[i] != NUL
      invariant i <= len
      decreases len - i
    {
      i := i + 1;
    }
    s := buf[..i];
  }

  class Editor {
    const buf: array<char>
    const buflen: nat // one less than the size of the buffer
    const prompt: string
    const cols: nat
    const term: Terminal
    ghost const top: nat // the screen row of the prompt
    var pos: nat
    var len: nat
    var oldpos: nat
    var maxrows: nat
    var historyIndex: nat

    ghost predicate Valid()
      reads this, buf
    {
      && buf.Length == buflen + 1 && buflen > 0
      && pos <= len <= buflen && buf[len] == NUL
      && NoNul(buf[..len])
      && |prompt| < cols == term.cols
    }

    /** The text left and right of the cursor. */
    ghost function View(): Line
      requires Valid()
      reads this, buf
    {
      Line(buf[..pos], buf[pos..len])
    }

    ghost predicate Synced()
      requires cols > 0
      reads this`oldpos, this`maxrows, term
    {
      InSync(term.screen, top, cols, |prompt| + oldpos, maxrows)
    }

    /** The screen shows prompt and text, and the cursor is where it belongs. */
    ghost predicate Shown()
      requires Valid()
      reads this, buf, term
    {
      Synced() && oldpos == pos && Displays(term.screen, top, cols, prompt + Text(View()))
    }

    function Measures(): Metrics
      reads this
    {
      Metrics(|prompt|, len, pos, oldpos, maxrows)
    }

    /** The set-up of `linenoiseEdit`: the prompt is written where the cursor stands. */
    constructor (size: nat, prompt: string, term: Terminal)
      requires size > 1 && |prompt| < term.cols
      requires term.screen.row >= 0 && term.screen.col == 0 && BlankBelow(term.screen, term.screen.row, term.cols)
      modifies term
      ensures Valid() && Shown() && View() == Line("", "") && fresh(buf)
      ensures buflen == size - 1 && historyIndex == 0 && this.term == term && this.prompt == prompt
      ensures top == old(term.screen.row)
      ensures SameAbove(old(term.screen), term.screen, old(term.screen.row), cols)
    {
      this.buf := new char[size](_ => NUL);
      this.buflen, this.prompt, this.cols, this.term := size - 1, prompt, term.cols, term;
      this.top := term.screen.row;
      pos, len, oldpos, maxrows, historyIndex := 0, 0, 0, 0, 0;
      new;
      PromptShows(term.cols, term.screen, prompt);
      term.Write(Prints(prompt));
      assert View() == Line("", "");
    }

    /** `refreshMultiLine` */
    method RefreshMultiLine()
      requires Valid() && Synced()
      modifies this`oldpos, this`maxrows, term
      ensures Valid() && Shown() && View() == old(View())
      ensures maxrows == NewMaxRows(cols, old(Measures()))
      ensures SameAbove(old(term.screen), term.screen, top, cols)
    {
      hide InSync, Displays, Refresh, NewMaxRows, SameAbove;
      ghost var m := Measures();
      var ab, newMax := Compose(m);
      RefreshShows(cols, term.screen, top, prompt, buf[..len], m);
      maxrows := newMax;
      oldpos := pos;
      term.Write(ab);
      assert Text(View()) == buf[..len];
    }

    /** What a refresh writes, collected in an append buffer, and the new maximum of rows. */
    method Compose(ghost m: Metrics) returns (ab: seq<Out>, newMax: nat)
      requires Valid() && m == Measures()
      ensures ab == Refresh(cols, prompt, buf[..len], m) && newMax == NewMaxRows(cols, m)
    {
      hide Erase;
      var rows := (|prompt| + len + cols - 1) / cols;
      newMax := Max(maxrows, rows);
      ab := ComposeErase(m);
      ab := ab + Prints(prompt) + Prints(buf[..len]);
      assert Prints(prompt) + Prints(buf[..len]) == Prints(prompt + buf[..len]);
      var place, newline := ComposePlace(m);
      if newline {
        newMax := Max(newMax, rows + 1);
      }
      ab := ab + place;
      assert ab == Refresh(cols, prompt, buf[..len], m);
    }

    method ComposePlace(ghost m: Metrics) returns (ab: seq<Out>, newline: bool)
      requires Valid() && m == Measures()
      ensures ab == Place(cols, m) && newline == NeedsNewline(cols, m)
    {
      var plen := |prompt|;
      var rows := (plen + len + cols - 1) / cols;
      ab := [];
      newline := pos != 0 && pos == len && (pos + plen) % cols == 0;
      if newline {
        ab := [LF] + [CR];
        rows := rows + 1;
      }
      ab := ab + Ups(rows - (plen + pos + cols) / cols);
      var col := (plen + pos) % cols;
      if col != 0 {
        ab := ab + [CR, Right(col)];
      } else {
        ab := ab + [CR];
      }
    }

    method ComposeErase(ghost m: Metrics) returns (ab: seq<Out>)
      requires Valid() && m == Measures()
      ensures ab == Erase(cols, m)
    {
      hide ClearUps, Downs, NoNul;
      var rpos := (|prompt| + oldpos + cols) / cols;
      ab := Downs(maxrows - rpos);
      ghost var down := ab;
      var j := 0;
      NoClearUp();
      assert down + [] == down;
      while j < maxrows - 1
        invariant 0 <= j <= Max(maxrows - 1, 0) && ab == down + ClearUps(j)
      {
        assert down + ClearUps(j) + CLEAR_UP == down + (ClearUps(j) + CLEAR_UP);
        NextClearUp(j);
        ab := ab + CLEAR_UP;
        j := j + 1;
      }
      ab := ab + [CR, EraseRight];
    }

    // ----- the editing commands

    /** `linenoiseEditInsert` */
    method EditInsert(c: char)
      requires Valid() && Shown() && c != NUL
      modifies this, buf, term
      ensures Valid() && Shown() && View() == Edited(old(View()), Insert(c), buflen)
      ensures historyIndex == old(historyIndex)
    {
      hide InSync, Displays;
      assert |Text(View())| == len;
      if len < buflen {
        InsertAtCursor(c);
        RefreshMultiLine();
      }
    }

    method InsertAtCursor(c: char)
      requires Valid() && c != NUL && len < buflen
      modifies this`pos, this`len, buf
      ensures Valid() && View() == Line(old(View()).left + [c], old(View()).right)
    {
      hide NoNul;
      ghost var l := View();
      PartsNoNul(l.left, l.right, buf[..len]);
      OneNoNul(c);
      OpenGap(c);
      PartsNoNul(l.left, [c], l.left + [c]);
      Rejoin(Line(l.left + [c], l.right));
    }

    /** The buffer part of the insertion. */
    method OpenGap(c: char)
      requires buf.Length == buflen + 1 && pos <= len < buflen
      modifies this`pos, this`len, buf
      ensures pos == old(pos) + 1 && len == old(len) + 1 && buf[len] == NUL
      ensures buf[..pos] == old(buf[..pos]) + [c] && buf[pos..len] == old(buf[pos..len])
    {
      ghost var s, p, n := buf[..], pos, len;
      if len == pos {
        buf[pos] := c;
        pos := pos + 1;
        len := len + 1;
        buf[len] := NUL;
      } else {
        MemMove(buf, pos + 1, pos, len - pos);
        buf[pos] := c;
        len := len + 1;
        pos := pos + 1;
        buf[len] := NUL;
      }
      assert Copied(s, n + 1, n, 0) == s;
      assert buf[..] == Copied(s, p + 1, p, n - p)[p := c][n + 1 := NUL];
      GapPieces(s, p, n, c);
      assert buf[..pos] == buf[..][..pos] && buf[pos..len] == buf[..][pos..len];
    }

    /** `linenoiseEditDelete` */
    method EditDelete()
      requires Valid() && Shown()
      modifies this, buf, term
      ensures Valid() && Shown() && View() == Edited(old(View()), Delete, buflen)
      ensures historyIndex == old(historyIndex)
    {
      hide InSync, Displays, NoNul, Edited;
      DeletePure(View(), buflen);
      if len > 0 && pos < len {
        DeleteAtCursor();
        RefreshMultiLine();
      }
    }

    method DeleteAtCursor()
      requires Valid() && pos < len
      modifies this`len, buf
      ensures Valid() && View() == Line(old(View()).left, old(View()).right[1..])
    {
      hide NoNul;
      ghost var left, rest := buf[..pos], buf[pos + 1..len];
      ghost var text := buf[..len];
      assert text == left + ([buf[pos]] + rest);
      PartsNoNul(left, [buf[pos]] + rest, text);
      PartsNoNul([buf[pos]], rest, [buf[pos]] + rest);
      assert View().right[1..] == rest;
      PullBack();
      Rejoin(Line(left, rest));
    }

    /** The buffer part of the deletion. */
    method PullBack()
      requires buf.Length == buflen + 1 && pos < len <= buflen
      modifies this`len, buf
      ensures len == old(len) - 1 && buf[len] == NUL
      ensures buf[..pos] == old(buf[..pos]) && buf[pos..len] == old(buf[pos + 1..len])
    {
      ghost var s := buf[..];
      MemMove(buf, pos, pos + 1, len - pos - 1);
      len := len - 1;
      buf[len] := NUL;
      assert buf[..] == Copied(s, pos, pos + 1, len - pos)[len := NUL];
      ClosePieces(s, pos, pos + 1, len + 1);
      assert buf[..pos] == buf[..][..pos] && buf[pos..len] == buf[..][pos..len];
    }

    /** `linenoiseEditBackspace` */
    method EditBackspace()
      requires Valid() && Shown()
      modifies this, buf, term
      ensures Valid() && Shown() && View() == Edited(old(View()), Backspace, buflen)
      ensures historyIndex == old(historyIndex)
    {
      hide InSync, Displays;
      if pos > 0 && len > 0 {
        EraseBeforeCursor(pos - 1);
        assert View().left == Front(old(View()).left);
        RefreshMultiLine();
      }
    }

    /** The characters from `start` up to the cursor are taken out of the buffer. */
    method EraseBeforeCursor(start: nat)
      requires Valid() && start <= pos
      modifies this`len, this`pos, buf
      ensures Valid() && View() == Line(old(View()).left[..start], old(View()).right)
    {
      hide NoNul;
      ghost var l := View();
      assert buf[..len] == l.left + l.right && l.left == l.left[..start] + l.left[start..];
      PartsNoNul(l.left, l.right, buf[..len]);
      PartsNoNul(l.left[..start], l.left[start..], l.left);
      assert buf[..start] == l.left[..start];
      CloseGap(start);
      Rejoin(Line(l.left[..start], l.right));
    }

    method CloseGap(start: nat)
      requires buf.Length == buflen + 1 && start <= pos <= len <= buflen
      modifies this`len, this`pos, buf
      ensures pos == start && len == old(len) - (old(pos) - start) && buf[len] == NUL
      ensures buf[..pos] == old(buf[..start]) && buf[pos..len] == old(buf[pos..len])
    {
      ghost var s, p, n := buf[..], pos, len;
      MemMove(buf, start, pos, len - pos);
      len := len - (pos - start);
      pos := start;
      buf[len] := NUL;
      assert buf[..] == Copied(s, start, p, n - p)[len := NUL];
      ClosePieces(s, start, p, n);
      assert buf[..pos] == buf[..][..pos] && buf[pos..len] == buf[..][pos..len];
    }

    method MoveCursor(to: nat)
      requires Valid() && Shown() && to <= len
      modifies this, term
      ensures Valid() && Shown() && historyIndex == old(historyIndex) && pos == to && Text(View()) == Text(old(View()))
      ensures len == old(len)
    {
      hide InSync, Displays;
      ghost var l := View();
      pos := to;
      assert Text(View()) == buf[..len] == Text(l);
      RefreshMultiLine();
    }

    /** `linenoiseEditMoveLeft` */
    method EditMoveLeft()
      requires Valid() && Shown()
      modifies this, term
      ensures Valid() && Shown() && View() == Edited(old(View()), Command.MoveLeft, buflen)
      ensures historyIndex == old(historyIndex)
    {
      hide InSync, Displays;
      if pos > 0 {
        ghost var l := View();
        MoveCursor(pos - 1);
        SameText(View(), Edited(l, Command.MoveLeft, buflen));
      }
    }

    /** `linenoiseEditMoveRight` */
    method EditMoveRight()
      requires Valid() && Shown()
      modifies this, term
      ensures Valid() && Shown() && View() == Edited(old(View()), Command.MoveRight, buflen)
      ensures historyIndex == old(historyIndex)
    {
      hide InSync, Displays;
      if pos != len {
        ghost var l := View();
        MoveCursor(pos + 1);
        SameText(View(), Edited(l, Command.MoveRight, buflen));
      }
    }

    /** `linenoiseEditMoveHome` */
    method EditMoveHome()
      requires Valid() && Shown()
      modifies this, term
      ensures Valid() && Shown() && View() == Edited(old(View()), MoveHome, buflen)
      ensures historyIndex == old(historyIndex)
    {
      hide InSync, Displays;
      ghost var l := View();
      if pos != 0 {
        MoveCursor(0);
      }
      SameText(View(), Edited(l, MoveHome, buflen));
    }

    /** `linenoiseEditMoveEnd` */
    method EditMoveEnd()
      requires Valid() && Shown()
      modifies this, term
      ensures Valid() && Shown() && View() == Edited(old(View()), MoveEnd, buflen)
      ensures historyIndex == old(historyIndex)
    {
      hide InSync, Displays;
      ghost var l := View();
      if pos != len {
        MoveCursor(len);
      }
      SameText(View(), Edited(l, MoveEnd, buflen));
    }

    /** `linenoiseEditDeletePrevWord` */
    method EditDeletePrevWord()
      requires Valid() && Shown()
      modifies this, buf, term
      ensures Valid() && Shown() && View() == Edited(old(View()), DeletePrevWord, buflen)
      ensures historyIndex == old(historyIndex)
    {
      hide InSync, Displays;
      var start := WordStart();
      EraseBeforeCursor(start);
      RefreshMultiLine();
    }

    /** The two loops that walk `pos` back over blanks and then over the word. */
    method WordStart() returns (p: nat)
      requires Valid()
      ensures p <= pos && View().left[..p] == DropWord(DropSpaces(View().left))
    {
      hide DropSpaces, DropWord, NoNul;
      ghost var left := View().left;
      p := pos;
      assert left[..p] == left;
      while p > 0 && buf[p - 1] == ' '
        invariant p <= pos && DropSpaces(left) == DropSpaces(left[..p])
      {
        assert Front(left[..p]) == left[..p - 1];
        DropStep(left[..p]);
        p := p - 1;
      }
      DropStep(left[..p]);
      ghost var spaced := p;
      assert DropSpaces(left) == left[..spaced];
      while p > 0 && buf[p - 1] != ' '
        invariant p <= spaced && DropWord(left[..spaced]) == DropWord(left[..p])
      {
        assert Front(left[..p]) == left[..p - 1];
        DropStep(left[..p]);
        p := p - 1;
      }
      DropStep(left[..p]);
    }

    /** Ctrl-T in `linenoiseEdit` */
    method EditTranspose()
      requires Valid() && Shown()
      modifies this, buf, term
      ensures Valid() && Shown() && View() == Edited(old(View()), Transpose, buflen)
      ensures historyIndex == old(historyIndex)
    {
      hide InSync, Displays;
      if pos > 0 && pos < len {
        SwapAtCursor();
        RefreshMultiLine();
      }
    }

    method SwapAtCursor()
      requires Valid() && 0 < pos < len
      modifies this`pos, buf
      ensures Valid() && View() == Edited(old(View()), Transpose, buflen)
    {
      hide NoNul;
      ghost var l := View();
      ghost var e := Edited(l, Transpose, buflen);
      SwapNoNul(l, buflen, buf[..len]);
      var aux := buf[pos - 1];
      buf[pos - 1] := buf[pos];
      buf[pos] := aux;
      if pos != len - 1 {
        pos := pos + 1;
      }
      assert buf[..pos] == e.left;
      assert buf[pos..len] == e.right;
      Rejoin(e);
    }

    /** Ctrl-U in `linenoiseEdit` */
    method EditKillLine()
      requires Valid() && Shown()
      modifies this, buf, term
      ensures Valid() && Shown() && View() == Edited(old(View()), KillLine, buflen)
      ensures historyIndex == old(historyIndex)
    {
      hide InSync, Displays;
      buf[0] := NUL;
      pos, len := 0, 0;
      RefreshMultiLine();
    }

    /** Ctrl-K in `linenoiseEdit` */
    method EditKillToEnd()
      requires Valid() && Shown()
      modifies this, buf, term
      ensures Valid() && Shown() && View() == Edited(old(View()), KillToEnd, buflen)
      ensures historyIndex == old(historyIndex)
    {
      hide InSync, Displays;
      hide NoNul;
      ghost var l := View();
      PartsNoNul(l.left, l.right, buf[..len]);
      OneNoNul('x');
      buf[pos] := NUL;
      len := pos;
      assert buf[..pos] == l.left;
      Rejoin(Line(l.left, ""));
      RefreshMultiLine();
    }

    /** Any editing command: it refines the pure one, and the screen shows the outcome. */
    method Edit(k: Command)
      requires Valid() && Shown() && (k.Insert? ==> k.c != NUL)
      modifies this, buf, term
      ensures Valid() && Shown() && View() == Edited(old(View()), k, buflen)
      ensures historyIndex == old(historyIndex)
    {
      hide InSync, Displays, Edited;
      match k {
        case Insert(c) => EditInsert(c);
        case Delete => EditDelete();
        case Backspace => EditBackspace();
        case MoveLeft => EditMoveLeft();
        case MoveRight => EditMoveRight();
        case MoveHome => EditMoveHome();
        case MoveEnd => EditMoveEnd();
        case DeletePrevWord => EditDeletePrevWord();
        case Transpose => EditTranspose();
        case KillLine => EditKillLine();
        case KillToEnd => EditKillToEnd();
      }
    }

    /** `linenoiseEditHistoryNext`; `prev` is the direction. */
    method EditHistoryNext(hist: History, prev: bool)
      requires Valid() && Shown() && hist.Valid() && AllNoNul(hist.View())
      requires hist.len > 0 && historyIndex < hist.len
      modifies this, buf, term, hist.lines
      ensures Valid() && Shown() && hist.Valid() && AllNoNul(hist.View())
      ensures Browser(hist.View(), historyIndex, View())
           == Moved(Browser(old(hist.View()), old(historyIndex), old(View())), prev, buflen)
    {
      hide InSync, Displays, NoNul, Text, Fitted;
      ghost var b := Browser(hist.View(), historyIndex, View());
      if hist.len > 1 {
        var slot := hist.len - 1 - historyIndex;
        SaveTo(hist, slot);
        var index := historyIndex + if prev then 1 else -1;
        if index < 0 {
          historyIndex := 0;
          return;
        } else if index >= hist.len {
          historyIndex := hist.len - 1;
          return;
        }
        historyIndex := index;
        var entry := hist.lines[hist.len - 1 - historyIndex];
        assert entry == hist.View()[hist.len - 1 - historyIndex];
        Display(entry);
      }
    }

    /** A line from the history takes the place of the text, on the screen too. */
    method Display(s: string)
      requires Valid() && Shown() && NoNul(s)
      modifies this`len, this`pos, this`oldpos, this`maxrows, buf, term
      ensures Valid() && Shown() && View() == Line(Fitted(s, buflen), "")
    {
      hide InSync, Displays, NoNul, Fitted;
      Load(s);
      RefreshMultiLine();
    }

    /** The line being edited replaces its entry in the history. */
    method SaveTo(hist: History, slot: nat)
      requires Valid() && hist.Valid() && AllNoNul(hist.View()) && slot < hist.len
      modifies hist.lines
      ensures hist.Valid() && hist.View() == old(hist.View())[slot := Text(View())] && AllNoNul(hist.View())
    {
      hide NoNul;
      var copy := StrDup(buf, len);
      assert copy == Text(View());
      hist.lines[slot] := copy;
      assert hist.View() == old(hist.View())[slot := Text(View())];
    }

    /** The buffer is filled with a line from the history. */
    method Load(s: string)
      requires Valid() && NoNul(s)
      modifies this`len, this`pos, buf
      ensures Valid() && View() == Line(Fitted(s, buflen), "")
    {
      StrNCpy(buf, s, buflen);
      buf[buflen - 1] := NUL;
      var n := 0;
      ghost var fit := Fitted(s, buflen);
      while buf[n] != NUL
        invariant n <= |fit|
        decreases |fit| - n
      {
        n := n + 1;
      }
      len, pos := n, n;
      assert buf[..pos] == fit;
    }

    /** The two parts of the buffer hold a line that has no NUL in it. */
    lemma Rejoin(l: Line)
      requires pos <= len <= buflen && buf.Length == buflen + 1
      requires buf[..pos] == l.left && buf[pos..len] == l.right && NoNul(l.left) && NoNul(l.right)
      ensures NoNul(buf[..len])
    {
      assert buf[..len] == l.left + l.right;
    }
  }

  lemma GapPieces(s: seq<char>, p: nat, n: nat, c: char)
    requires p <= n && n + 1 < |s|
    ensures var r := Copied(s, p + 1, p, n - p)[p := c][n + 1 := NUL];
            r[..p + 1] == s[..p] + [c] && r[p + 1..n + 1] == s[p..n]
  {
    var m := Copied(s, p + 1, p, n - p);
    assert m[..p] == s[..p] && m[p + 1..n + 1] == s[p..n];
    var r := m[p := c][n + 1 := NUL];
    assert r[..p] == m[..p] && r[..p + 1] == r[..p] + [r[p]];
    assert r[p + 1..n + 1] == m[p + 1..n + 1];
  }

  lemma ClosePieces(s: seq<char>, start: nat, p: nat, n: nat)
    requires start <= p <= n < |s|
    ensures var len := n - (p - start); var r := Copied(s, start, p, n - p)[len := NUL];
            r[..start] == s[..start] && r[start..len] == s[p..n]
  {
    var len := n - (p - start);
    var m := Copied(s, start, p, n - p);
    assert m[..start] == s[..start] && m[start..len] == s[p..n];
    var r := m[len := NUL];
    assert r[..start] == m[..start];
    assert r[start..len] == m[start..len];
  }

  lemma DropStep(s: string)
    ensures DropSpaces(s) == if s != "" && Last(s) == ' ' then DropSpaces(Front(s)) else s
    ensures DropWord(s) == if s != "" && Last(s) != ' ' then DropWord(Front(s)) else s
  {
  }

  lemma NextClearUp(k: nat)
    ensures ClearUps(k + 1) == ClearUps(k) + CLEAR_UP
  {
  }

  lemma NoClearUp()
    ensures ClearUps(0) == []
  {
  }

  lemma PartsNoNul(a: string, b: string, whole: string)
    requires whole == a + b
    ensures NoNul(whole) <==> NoNul(a) && NoNul(b)
  {
    assert forall i | 0 <= i < |a| :: whole[i] == a[i];
    assert forall i | 0 <= i < |b| :: whole[|a| + i] == b[i];
  }

  lemma OneNoNul(c: char)
    ensures NoNul([c]) <==> c != NUL
    ensures NoNul("")
  {
    assert [c][0] == c;
  }

  lemma SwapNoNul(l: Line, cap: nat, text: string)
    requires text == Text(l) && NoNul(text)
    ensures NoNul(Edited(l, Transpose, cap).left) && NoNul(Edited(l, Transpose, cap).right)
  {
    PartsNoNul(l.left, l.right, text);
  }

  lemma DeletePure(l: Line, cap: nat)
    ensures Edited(l, Delete, cap) == if l.right != "" then Line(l.left, l.right[1..]) else l
  {
  }

  /** Lines are equal if their text and the length of their left parts are. */
  lemma SameText(a: Line, b: Line)
    requires Text(a) == Text(b) && |a.left| == |b.left|
    ensures a == b
  {
    assert a.left == Text(a)[..|a.left|] && b.left == Text(b)[..|b.left|];
    assert a.right == Text(a)[|a.left|..] && b.right == Text(b)[|b.left|..];
  }

  predicate NoNul(s: string) { forall i | 0 <= i < |s| :: s[i] != NUL }

  predicate AllNoNul(lines: seq<string>) { forall i | 0 <= i < |lines| :: NoNul(lines[i]) }
}
