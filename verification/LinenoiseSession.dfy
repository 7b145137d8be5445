/** Whole editing sessions: the key loop of linenoise over its input. */
module LinenoiseSession {
  import opened Basics
  import opened LinenoiseScreen
  import opened LinenoiseHistory
  import opened LinenoiseEdit
  import opened LinenoiseState

  datatype Key = Enter | CtrlC | CtrlD | Prev | Next | Edits(k: Command) | Ignored

  /** The key switch of `linenoiseEdit`: the key at `at`, and where the next one begins. */
  function Decode(input: string, at: nat): (r: (Key, nat))
    requires at < |input|
    ensures at < r.1 <= |input|
  {
    var c := input[at];
    if c == 13 as char then (Enter, at + 1)
    else if c == 3 as char then (CtrlC, at + 1)
    else if c == 127 as char || c == 8 as char then (Edits(Backspace), at + 1)
    else if c == 4 as char then (CtrlD, at + 1)
    else if c == 20 as char then (Edits(Transpose), at + 1)
    else if c == 2 as char then (Edits(Command.MoveLeft), at + 1)
    else if c == 6 as char then (Edits(Command.MoveRight), at + 1)
    else if c == 16 as char then (Prev, at + 1)
    else if c == 14 as char then (Next, at + 1)
    else if c == 27 as char then DecodeEscape(input, at)
    else if c == 21 as char then (Edits(KillLine), at + 1)
    else if c == 11 as char then (Edits(KillToEnd), at + 1)
    else if c == 1 as char then (Edits(MoveHome), at + 1)
    else if c == 5 as char then (Edits(MoveEnd), at + 1)
    else if c == 23 as char then (Edits(DeletePrevWord), at + 1)
    else (Edits(Insert(c)), at + 1)
  }

  /** Escape sequences; one that is cut off by the end of the input is ignored. */
  function DecodeEscape(input: string, at: nat): (r: (Key, nat))
    requires at < |input|
    ensures at < r.1 <= |input| && !(r.0.Edits? && r.0.k.Insert?)
  {
    if at + 2 >= |input| then (Ignored, |input|)
    else
      var s0, s1 := input[at + 1], input[at + 2];
      if s0 == '[' && '0' <= s1 <= '9' then
        if at + 3 >= |input| then (Ignored, |input|)
        else (if input[at + 3] == '~' && s1 == '3' then Edits(Delete) else Ignored, at + 4)
      else if s0 == '[' then
        (if s1 == 'A' then Prev else if s1 == 'B' then Next
         else if s1 == 'C' then Edits(Command.MoveRight) else if s1 == 'D' then Edits(Command.MoveLeft)
         else if s1 == 'H' then Edits(MoveHome) else if s1 == 'F' then Edits(MoveEnd) else Ignored, at + 3)
      else if s0 == 'O' then
        (if s1 == 'H' then Edits(MoveHome) else if s1 == 'F' then Edits(MoveEnd) else Ignored, at + 3)
      else (Ignored, at + 3)
  }

  datatype Ending = InputExhausted | Accepted | Interrupted | EndOfFile

  datatype Outcome = Outcome(ending: Ending, lines: seq<string>, line: string)

  predicate Quits(b: Browser, key: Key) { key == Enter || key == CtrlC || (key == CtrlD && Text(b.line) == "") }

  /** What a key that does not end the session does. */
  function Keyed(b: Browser, key: Key, cap: nat): (r: Browser)
    requires Browsing(b) && cap > 0
    ensures Browsing(r)
  {
    match key
    case Prev => MoveKeepsOverlayIff(b, true, cap); Moved(b, true, cap)
    case Next => MoveKeepsOverlayIff(b, false, cap); Moved(b, false, cap)
    case Edits(k) => b.(line := Edited(b.line, k, cap))
    case CtrlD => b.(line := Edited(b.line, Delete, cap))
    case _ => b
  }

  /** How the key that ends the session leaves the history. */
  function Left(b: Browser, key: Key): Outcome
    requires Browsing(b)
  {
    if key == CtrlC then Outcome(Interrupted, b.lines, Text(b.line))
    else Outcome(if key == Enter then Accepted else EndOfFile, b.lines[..|b.lines| - 1], Text(b.line))
  }

  /** The session from position `at` of the input on. */
  function Session(b: Browser, input: string, at: nat, cap: nat): Outcome
    requires Browsing(b) && cap > 0 && at <= |input|
    decreases |input| - at
  {
    if at == |input| then Outcome(InputExhausted, b.lines, Text(b.line))
    else
      var (key, next) := Decode(input, at);
      if !Quits(b, key) then Session(Keyed(b, key, cap), input, next, cap)
      else Left(b, key)
  }

  predicate Typed(input: string) { forall i | 0 <= i < |input| :: input[i] != NUL && input[i] != 12 as char }

  /** The line being edited before each key of the session from position `at` on. */
  function LinesShown(b: Browser, input: string, at: nat, cap: nat): seq<Line>
    requires Browsing(b) && cap > 0 && at <= |input|
    decreases |input| - at
  {
    if at == |input| then [b.line]
    else
      var (key, next) := Decode(input, at);
      [b.line] + if Quits(b, key) then [] else LinesShown(Keyed(b, key, cap), input, next, cap)
  }

  /** The screen shows the prompt and the line from row `top` on and nothing below, with the cursor in its place. */
  ghost predicate Shows(s: Screen, top: int, cols: nat, prompt: string, l: Line)
    requires cols > 0
  {
    && Displays(s, top, cols, prompt + Text(l))
    && s.row == top + (|prompt| + |l.left|) / cols && s.col == (|prompt| + |l.left|) % cols
  }

  ghost predicate AllShown(screens: seq<Screen>, top: int, cols: nat, prompt: string, lines: seq<Line>)
    requires cols > 0
  {
    |screens| == |lines| && forall k | 0 <= k < |lines| :: Shows(screens[k], top, cols, prompt, lines[k])
  }

  /**
     `linenoiseEdit` in multi-line mode, for all input but NUL and Ctrl-L. It ends
     as the pure session does, with the same line and the same history. `screens`
     is what the terminal shows before every key: the prompt and the line being
     edited.
     */
  method EditLine(size: nat, prompt: string, term: Terminal, hist: History, input: string)
    returns (ending: Ending, line: string, ghost screens: seq<Screen>)
    requires size > 1 && |prompt| < term.cols && Typed(input)
    requires term.screen.row >= 0 && term.screen.col == 0 && BlankBelow(term.screen, term.screen.row, term.cols)
    requires hist.Valid() && hist.maxLen > 0 && AllNoNul(hist.View())
    modifies term, hist.Footprint()
    ensures hist.Valid() && hist.maxLen == old(hist.maxLen)
    ensures Outcome(ending, hist.View(), line) == Session(First(old(hist.View()), hist.maxLen), input, 0, size - 1)
    ensures AllShown(screens, old(term.screen.row), term.cols, prompt,
                     LinesShown(First(old(hist.View()), hist.maxLen), input, 0, size - 1))
  {
    hide BlankBelow, Decode, Running, Progress, Keyed, Quits, Shows, First, Session, LinesShown, AllShown, Left, Typed;
    ghost var first := First(hist.View(), hist.maxLen);
    ghost var top := term.screen.row;
    var e := Begin(size, prompt, term, hist);
    screens := [];
    ghost var lines: seq<Line> := [];
    NoneShown(first, input, size - 1, top, term.cols, prompt);
    var at := 0;
    while at < |input|
      invariant at <= |input| && fresh(e) && fresh(e.buf)
      invariant e.term == term && e.buflen == size - 1 && e.prompt == prompt && e.top == top
      invariant fresh(hist.Footprint() - old(hist.Footprint())) && hist.maxLen == old(hist.maxLen)
      invariant Running(e, hist)
      invariant Session(Progress(e, hist), input, at, size - 1) == Session(first, input, 0, size - 1)
      invariant AllShown(screens, top, term.cols, prompt, lines)
      invariant lines + LinesShown(Progress(e, hist), input, at, size - 1) == LinesShown(first, input, 0, size - 1)
    {
      var (key, next) := Decode(input, at);
      DecodedInsert(input, at);
      RunningShows(e, hist);
      ghost var b := Progress(e, hist);
      SessionNext(b, input, at, size - 1, lines);
      OneMoreShown(screens, top, term.cols, prompt, lines, term.screen, b.line);
      screens, lines := screens + [term.screen], lines + [b.line];
      var quits := IsQuit(e, hist, key);
      if quits {
        ending, line := Quit(e, hist, key);
        return;
      }
      ApplyKey(e, hist, key);
      at := next;
    }
    RunningShows(e, hist);
    SessionEnd(Progress(e, hist), input, size - 1);
    OneMoreShown(screens, top, term.cols, prompt, lines, term.screen, Progress(e, hist).line);
    screens := screens + [term.screen];
    ending := InputExhausted;
    line := Current(e, hist);
  }

  /** Where every session begins: with an empty line, which is the latest entry of the history. */
  function First(h: seq<string>, max: nat): (b: Browser)
    requires max > 0
    ensures Browsing(b)
  {
    Browser(Added(h, "", max), 0, Line("", ""))
  }

  lemma RunningShows(e: Editor, hist: History)
    requires Running(e, hist)
    ensures e.cols == e.term.cols > 0
    ensures Shows(e.term.screen, e.top, e.term.cols, e.prompt, Progress(e, hist).line)
  {
    hide Displays;
  }

  /** What the session does with the key at `at`. */
  lemma SessionNext(b: Browser, input: string, at: nat, cap: nat, before: seq<Line>)
    requires Browsing(b) && cap > 0 && at < |input|
    ensures var (key, next) := Decode(input, at);
            if Quits(b, key) then
              && Session(b, input, at, cap) == Left(b, key)
              && before + LinesShown(b, input, at, cap) == before + [b.line]
            else
              var c := Keyed(b, key, cap);
              && Session(b, input, at, cap) == Session(c, input, next, cap)
              && before + LinesShown(b, input, at, cap) == (before + [b.line]) + LinesShown(c, input, next, cap)
  {
    hide Decode, Quits, Keyed, Left;
    var (key, next) := Decode(input, at);
    if !Quits(b, key) {
      Regroup(before, b.line, LinesShown(Keyed(b, key, cap), input, next, cap));
    }
  }

  lemma Regroup(a: seq<Line>, x: Line, c: seq<Line>)
    ensures a + ([x] + c) == (a + [x]) + c
  {
  }

  lemma OneMoreShown(screens: seq<Screen>, top: int, cols: nat, prompt: string, lines: seq<Line>, s: Screen, l: Line)
    requires cols > 0 && AllShown(screens, top, cols, prompt, lines) && Shows(s, top, cols, prompt, l)
    ensures AllShown(screens + [s], top, cols, prompt, lines + [l])
  {
    hide Shows;
  }

  lemma NoneShown(b: Browser, input: string, cap: nat, top: int, cols: nat, prompt: string)
    requires Browsing(b) && cap > 0 && cols > 0
    ensures AllShown([], top, cols, prompt, []) && [] + LinesShown(b, input, 0, cap) == LinesShown(b, input, 0, cap)
  {
  }

  lemma SessionEnd(b: Browser, input: string, cap: nat)
    requires Browsing(b) && cap > 0
    ensures Session(b, input, |input|, cap) == Outcome(InputExhausted, b.lines, Text(b.line))
    ensures LinesShown(b, input, |input|, cap) == [b.line]
  {
  }

  method Begin(size: nat, prompt: string, term: Terminal, hist: History) returns (e: Editor)
    requires size > 1 && |prompt| < term.cols
    requires term.screen.row >= 0 && term.screen.col == 0 && BlankBelow(term.screen, term.screen.row, term.cols)
    requires hist.Valid() && hist.maxLen > 0 && AllNoNul(hist.View())
    modifies term, hist.Footprint()
    ensures fresh(e) && fresh(e.buf) && e.term == term && e.buflen == size - 1
    ensures e.prompt == prompt && e.top == old(term.screen.row)
    ensures fresh(hist.Footprint() - old(hist.Footprint())) && hist.maxLen == old(hist.maxLen)
    ensures Running(e, hist)
    ensures Progress(e, hist) == First(old(hist.View()), hist.maxLen)
  {
    hide InSync, Displays, BlankBelow, SameAbove;
    e := new Editor(size, prompt, term);
    var added := hist.Add("");
  }

  method Current(e: Editor, hist: History) returns (line: string)
    requires Running(e, hist)
    ensures hist.Valid() && line == Text(Progress(e, hist).line) && hist.View() == Progress(e, hist).lines
  {
    hide InSync, Displays;
    line := CopyLine(e);
  }

  method CopyLine(e: Editor) returns (line: string)
    requires e.Valid()
    ensures line == Text(e.View())
  {
    EmptyText(e);
    line := StrDup(e.buf, e.len);
  }

  ghost predicate Running(e: Editor, hist: History)
    reads e, e.buf, e.term, hist, hist.lines
  {
    e.Valid() && e.Shown() && hist.Valid() && AllNoNul(hist.View()) && e.historyIndex < hist.len
  }

  ghost function Progress(e: Editor, hist: History): (b: Browser)
    requires Running(e, hist)
    ensures Browsing(b)
    reads e, e.buf, e.term, hist, hist.lines
  {
    Browser(hist.View(), e.historyIndex, e.View())
  }

  method IsQuit(e: Editor, hist: History, key: Key) returns (quits: bool)
    requires Running(e, hist)
    ensures quits <==> Quits(Progress(e, hist), key)
  {
    hide InSync, Displays;
    EmptyText(e);
    quits := key == Enter || key == CtrlC || (key == CtrlD && e.len == 0);
  }

  /** A key that does not end the session: the pure step is taken, and the screen shows it. */
  method ApplyKey(e: Editor, hist: History, key: Key)
    requires Running(e, hist) && !Quits(Progress(e, hist), key) && (key.Edits? && key.k.Insert? ==> key.k.c != NUL)
    modifies e, e.buf, e.term, hist.lines
    ensures Running(e, hist) && Progress(e, hist) == Keyed(old(Progress(e, hist)), key, e.buflen)
  {
    hide InSync, Displays, Edited, Moved;
    MoveKeepsOverlayIff(Progress(e, hist), key == Prev, e.buflen);
    if key == Prev || key == Next {
      e.EditHistoryNext(hist, key == Prev);
    } else if key.Edits? {
      e.Edit(key.k);
    } else if key == CtrlD {
      e.EditDelete();
    }
  }

  method EndLine(e: Editor, toEnd: bool) returns (line: string)
    requires e.Valid() && e.Shown()
    modifies e, e.term
    ensures line == Text(old(e.View()))
  {
    hide InSync, Displays, Edited;
    EmptyText(e);
    if toEnd {
      e.EditMoveEnd();
    }
    line := CopyLine(e);
  }

  method Quit(e: Editor, hist: History, key: Key) returns (ending: Ending, line: string)
    requires Running(e, hist) && Quits(Progress(e, hist), key)
    modifies e, e.term, hist`len
    ensures hist.Valid()
    ensures Outcome(ending, hist.View(), line) == Left(old(Progress(e, hist)), key)
  {
    hide InSync, Displays, Text, NoNul, AllNoNul;
    line := EndLine(e, key == Enter);
    if key != CtrlC {
      hist.DropLast();
    }
    ending := if key == Enter then Accepted else if key == CtrlC then Interrupted else EndOfFile;
  }

  lemma DecodedInsert(input: string, at: nat)
    requires at < |input| && Typed(input)
    ensures var key := Decode(input, at).0; key.Edits? && key.k.Insert? ==> key.k.c != NUL
  {
  }

  lemma EmptyText(e: Editor)
    requires e.Valid()
    ensures Text(e.View()) == e.buf[..e.len]
    ensures Text(Edited(e.View(), MoveEnd, e.buflen)) == Text(e.View())
  {
  }

  // ----- what a session amounts to

  /** A character that the key switch inserts as it is. */
  predicate Plain(c: char) { ' ' <= c && c != 127 as char }

  lemma PlainInserts(input: string, s: string, at: nat)
    requires at < |s| && input == s + [13 as char] && Plain(s[at])
    ensures Decode(input, at) == (Edits(Insert(s[at])), at + 1)
  {
  }

  lemma {:induction false} TypingFrom(b: Browser, s: string, at: nat, cap: nat)
    requires Browsing(b) && cap > 0 && at <= |s| && forall i | 0 <= i < |s| :: Plain(s[i])
    requires b.line == Line(if at <= cap then s[..at] else s[..cap], "")
    ensures Session(b, s + [13 as char], at, cap)
         == Outcome(Accepted, b.lines[..|b.lines| - 1], if |s| <= cap then s else s[..cap])
    decreases |s| - at
  {
    hide Decode, Keyed;
    var input := s + [13 as char];
    if at < |s| {
      PlainInserts(input, s, at);
      TypedOne(b, s, at, cap);
      var key := Edits(Insert(s[at]));
      assert Session(b, input, at, cap) == Session(Keyed(b, key, cap), input, at + 1, cap);
      TypingFrom(Keyed(b, key, cap), s, at + 1, cap);
    } else {
      EnterDecoded(input, at);
      assert s[..|s|] == s;
    }
  }

  lemma TypedOne(b: Browser, s: string, at: nat, cap: nat)
    requires Browsing(b) && cap > 0 && at < |s| && b.line == Line(if at <= cap then s[..at] else s[..cap], "")
    ensures Keyed(b, Edits(Insert(s[at])), cap) == b.(line := Line(if at + 1 <= cap then s[..at + 1] else s[..cap], ""))
  {
  }

  lemma EnterDecoded(input: string, at: nat)
    requires at < |input| && input[at] == 13 as char
    ensures Decode(input, at) == (Enter, at + 1)
  {
  }

  /** Typing a line and Enter yields that line, up to the size of the buffer, and leaves the history behind. */
  lemma TypedLineAccepted(h: seq<string>, max: nat, s: string, cap: nat)
    requires max > 0 && cap > 0 && forall i | 0 <= i < |s| :: Plain(s[i])
    ensures var lines := Added(h, "", max);
            Session(First(h, max), s + [13 as char], 0, cap)
            == Outcome(Accepted, lines[..|lines| - 1], if |s| <= cap then s else s[..cap])
  {
    TypingFrom(First(h, max), s, 0, cap);
  }

  /** What a key that does not browse does to the line being edited. */
  function LineAfter(l: Line, key: Key, cap: nat): Line {
    if key.Edits? then Edited(l, key.k, cap) else if key == CtrlD then Edited(l, Delete, cap) else l
  }

  /** How a session ends, by its input: the first key that quits, or none. */
  function EndingOf(l: Line, input: string, at: nat, cap: nat): Ending
    requires at <= |input|
    decreases |input| - at
  {
    if at == |input| then InputExhausted
    else
      var (key, next) := Decode(input, at);
      if key == Enter then Accepted
      else if key == CtrlC then Interrupted
      else if key == CtrlD && Text(l) == "" then EndOfFile
      else EndingOf(LineAfter(l, key, cap), input, next, cap)
  }

  /** No key up to the end of the session goes up or down in the history. */
  predicate NeverBrowses(l: Line, input: string, at: nat, cap: nat)
    requires at <= |input|
    decreases |input| - at
  {
    at == |input|
    || var (key, next) := Decode(input, at);
       || key == Enter || key == CtrlC || (key == CtrlD && Text(l) == "")
       || (key != Prev && key != Next && NeverBrowses(LineAfter(l, key, cap), input, next, cap))
  }

  /** All keys up to Enter or Ctrl-C go up or down in the history or move within the line. */
  predicate OnlyLooks(input: string, at: nat)
    requires at <= |input|
    decreases |input| - at
  {
    at == |input|
    || var (key, next) := Decode(input, at);
       || key == Enter || key == CtrlC
       || (key != CtrlD && (key.Edits? ==> Moving(key.k)) && OnlyLooks(input, next))
  }

  /** Enter and Ctrl-D on an empty line take the entry of the line away again; Ctrl-C and the end of input leave it. */
  predicate TakesBack(ending: Ending) { ending == Accepted || ending == EndOfFile }

  /** The ending decides whether the entry of the line goes away, and nothing else of the history changes. */
  ghost predicate EndingSettles(b: Browser, o: Outcome, ending: Ending)
    requires Browsing(b)
  {
    o.ending == ending && o.lines == if TakesBack(ending) then b.lines[..|b.lines| - 1] else b.lines
  }

  lemma {:induction false} EndingDecides(b: Browser, input: string, at: nat, cap: nat)
    requires Browsing(b) && cap > 0 && at <= |input| && NeverBrowses(b.line, input, at, cap)
    ensures EndingSettles(b, Session(b, input, at, cap), EndingOf(b.line, input, at, cap))
    decreases |input| - at
  {
    hide Decode, Edited;
    if at < |input| {
      var (key, next) := Decode(input, at);
      if !Quits(b, key) {
        EndingDecides(Keyed(b, key, cap), input, next, cap);
      }
    }
  }

  /** The line being edited is what the history has in its place, and every line fits the buffer. */
  predicate AsStored(b: Browser, cap: nat)
    requires Browsing(b)
  {
    Text(b.line) == b.lines[Slot(b)] && forall i | 0 <= i < |b.lines| :: |b.lines[i]| < cap
  }

  lemma LookingStep(b: Browser, key: Key, cap: nat)
    requires Browsing(b) && cap > 0 && AsStored(b, cap) && key != CtrlD && (key.Edits? ==> Moving(key.k))
    ensures Keyed(b, key, cap).lines == b.lines && AsStored(Keyed(b, key, cap), cap)
  {
    if key.Edits? {
      MovingKeepsText(b.line, key.k, cap);
    } else if key == Prev || key == Next {
      assert b.lines[Slot(b) := Text(b.line)] == b.lines;
    }
  }

  /** The same for sessions that go up and down at will but only look, if all lines fit the buffer. */
  lemma {:induction false} LookingKeepsLines(b: Browser, l: Line, input: string, at: nat, cap: nat)
    requires Browsing(b) && cap > 0 && at <= |input| && OnlyLooks(input, at) && AsStored(b, cap)
    ensures EndingSettles(b, Session(b, input, at, cap), EndingOf(l, input, at, cap))
    decreases |input| - at
  {
    hide Decode, Keyed, AsStored, LineAfter;
    if at < |input| {
      var (key, next) := Decode(input, at);
      if key != Enter && key != CtrlC {
        LookingStep(b, key, cap);
        LookingKeepsLines(Keyed(b, key, cap), LineAfter(l, key, cap), input, next, cap);
      }
    }
  }

  /** The sessions in question: those that do not browse, and those that look at lines which fit the buffer. */
  predicate TypesOrLooks(h: seq<string>, input: string, cap: nat) {
    || NeverBrowses(Line("", ""), input, 0, cap)
    || (OnlyLooks(input, 0) && forall i | 0 <= i < |h| :: |h[i]| < cap)
  }

  /**
     A session that does not browse, or only looks, leaves the history as it was
     exactly if, when its input ends it so that it takes its own entry back, there
     was room for it and the last line was not empty, and otherwise if the last
     line was empty already.
     */
  lemma HistoryKeptIff(h: seq<string>, max: nat, input: string, cap: nat)
    requires 0 < max && |h| <= max && cap > 0 && TypesOrLooks(h, input, cap)
    ensures Session(First(h, max), input, 0, cap).lines == h
            <==> if TakesBack(EndingOf(Line("", ""), input, 0, cap)) then |h| < max && (h == [] || Last(h) != "")
                 else h != [] && Last(h) == ""
  {
    hide Session, NeverBrowses, OnlyLooks, EndingOf;
    if NeverBrowses(Line("", ""), input, 0, cap) {
      EndingDecides(First(h, max), input, 0, cap);
    } else {
      LookingKeepsLines(First(h, max), Line("", ""), input, 0, cap);
    }
    var lines := Added(h, "", max);
    if h != [] && Last(h) != "" {
      assert Last(lines) == "";
      if |h| == max { assert |lines| == |h|; }
    }
  }

  /** Ctrl-C leaves an empty line in the history, and Enter on a full history costs its oldest line. */
  lemma HistoryNotKept(cap: nat)
    requires cap > 0
    ensures Session(First(["a"], 5), [3 as char], 0, cap).lines == ["a", ""]
    ensures Session(First(["a", "b"], 2), [13 as char], 0, cap).lines == ["b"]
    ensures Session(First(["a", ""], 5), [13 as char], 0, cap).lines == ["a"]
  {
    assert Added(["a"], "", 5) == ["a", ""] && Added(["a", "b"], "", 2) == ["b", ""];
    assert ["b", ""][..1] == ["b"] && ["a", ""][..1] == ["a"];
  }

  // ----- what a run of keys leaves alone

  function KeysFrom(b: Browser, keys: seq<Key>, cap: nat): (r: Browser)
    requires Browsing(b) && cap > 0
    ensures Browsing(r)
  {
    if keys == [] then b else Keyed(KeysFrom(b, Front(keys), cap), Last(keys), cap)
  }

  predicate ChangesText(key: Key) { key == CtrlD || (key.Edits? && !Moving(key.k)) }

  /** The entries at which a key that changes text was pressed. */
  function Touched(b: Browser, keys: seq<Key>, cap: nat): set<int>
    requires Browsing(b) && cap > 0
  {
    if keys == [] then {}
    else
      var c := KeysFrom(b, Front(keys), cap);
      Touched(b, Front(keys), cap) + if ChangesText(Last(keys)) then {Slot(c)} else {}
  }

  /** The line that a key goes up or down to, if any, fits the buffer. */
  predicate FitsNext(b: Browser, key: Key, cap: nat)
    requires Browsing(b)
  {
    (key == Prev || key == Next) && Target(b, key == Prev) >= 0 ==> |b.lines[Target(b, key == Prev)]| < cap
  }

  predicate AlwaysFits(b: Browser, keys: seq<Key>, cap: nat)
    requires Browsing(b) && cap > 0
  {
    keys == [] || (AlwaysFits(b, Front(keys), cap) && FitsNext(KeysFrom(b, Front(keys), cap), Last(keys), cap))
  }

  lemma KeyChangesSlotOnly(b: Browser, key: Key, cap: nat)
    requires Browsing(b) && cap > 0 && FitsNext(b, key, cap)
    ensures Overlay(Keyed(b, key, cap)) == if ChangesText(key) then Overlay(b)[Slot(b) := Text(Keyed(b, key, cap).line)]
                                           else Overlay(b)
  {
    hide Edited, Moved;
    if key == Prev || key == Next {
      MoveKeepsOverlayIff(b, key == Prev, cap);
    } else if key.Edits? && Moving(key.k) {
      MovingKeepsText(b.line, key.k, cap);
    }
  }

  /**
     Whatever keys are pressed, as long as the lines gone to fit the buffer: every
     entry at which nothing was edited is as it was, and none comes or goes.
     */
  lemma {:induction false} KeysChangeTouchedOnly(b: Browser, keys: seq<Key>, cap: nat)
    requires Browsing(b) && cap > 0 && AlwaysFits(b, keys, cap)
    ensures var r := KeysFrom(b, keys, cap);
            && |r.lines| == |b.lines|
            && forall i | 0 <= i < |b.lines| && i !in Touched(b, keys, cap) :: Overlay(r)[i] == Overlay(b)[i]
    decreases |keys|
  {
    hide Keyed, FitsNext;
    if keys != [] {
      KeysChangeTouchedOnly(b, Front(keys), cap);
      KeyChangesSlotOnly(KeysFrom(b, Front(keys), cap), Last(keys), cap);
    }
  }

  // ----- which bytes are which key

  /** The code points that the key switch has a branch of its own for. */
  const CONTROLS := {1, 2, 3, 4, 5, 6, 8, 11, 13, 14, 16, 20, 21, 23, 27, 127}

  /** A sequence that begins with an escape. */
  function Esc(rest: string): string { [27 as char] + rest }

  /** All that the terminal may send for a key. */
  function Codes(key: Key): set<string> {
    match key
    case Enter => {[13 as char]}
    case CtrlC => {[3 as char]}
    case CtrlD => {[4 as char]}
    case Prev => {[16 as char], Esc("[A")}
    case Next => {[14 as char], Esc("[B")}
    case Edits(k) =>
      (match k
       case Insert(c) => if c as int in CONTROLS then {} else {[c]}
       case Backspace => {[8 as char], [127 as char]}
       case Delete => {Esc("[3~")}
       case MoveLeft => {[2 as char], Esc("[D")}
       case MoveRight => {[6 as char], Esc("[C")}
       case MoveHome => {[1 as char], Esc("[H"), Esc("OH")}
       case MoveEnd => {[5 as char], Esc("[F"), Esc("OF")}
       case Transpose => {[20 as char]}
       case KillLine => {[21 as char]}
       case KillToEnd => {[11 as char]}
       case DeletePrevWord => {[23 as char]})
    case Ignored => {}
  }

  /** The code of a key is recognised wherever it stands. */
  lemma CodeDecoded(input: string, at: nat, key: Key, code: string)
    requires code in Codes(key) && at + |code| <= |input| && input[at..at + |code|] == code
    ensures at < |input| && Decode(input, at) == (key, at + |code|)
  {
    assert |code| >= 1 && input[at] == code[0];
    if |code| > 1 {
      assert input[at + 1] == code[1] && input[at + 2] == code[2];
      if |code| > 3 { assert input[at + 3] == code[3]; }
    }
  }

  /** And nothing else is taken for a key. */
  lemma DecodedCode(input: string, at: nat)
    requires at < |input|
    ensures var (key, next) := Decode(input, at); key == Ignored || input[at..next] in Codes(key)
  {
    hide Codes;
    var (key, next) := Decode(input, at);
    var code := input[at..next];
    if input[at] == 27 as char {
      if key != Ignored { EscapeCode(input, at); }
    } else {
      assert code == [input[at]];
      SingleCode(input, at);
    }
  }

  lemma SingleCode(input: string, at: nat)
    requires at < |input| && input[at] != 27 as char
    ensures Decode(input, at).1 == at + 1 && [input[at]] in Codes(Decode(input, at).0)
  {
    hide DecodeEscape;
  }

  lemma EscapeCode(input: string, at: nat)
    requires at < |input| && input[at] == 27 as char && Decode(input, at).0 != Ignored
    ensures var (key, next) := Decode(input, at); input[at..next] in Codes(key)
  {
    var (key, next) := Decode(input, at);
    assert (key, next) == DecodeEscape(input, at);
    if next == at + 4 {
      assert input[at..next] == Esc("[3~");
    } else {
      assert input[at..next] == Esc([input[at + 1], input[at + 2]]);
      assert "[A" == ['[', 'A'] && "[B" == ['[', 'B'] && "[C" == ['[', 'C'] && "[D" == ['[', 'D'];
      assert "[H" == ['[', 'H'] && "[F" == ['[', 'F'] && "OH" == ['O', 'H'] && "OF" == ['O', 'F'];
    }
  }

  // ----- whole runs of keys

  /** `input` has these codes from `at` on, one behind the other. */
  predicate Sends(input: string, at: nat, codes: seq<string>)
    decreases |codes|
  {
    codes == []
    || (at + |codes[0]| <= |input| && input[at..at + |codes[0]|] == codes[0]
        && Sends(input, at + |codes[0]|, codes[1..]))
  }

  function Length(codes: seq<string>): nat
    decreases |codes|
  {
    if codes == [] then 0 else |codes[0]| + Length(codes[1..])
  }

  /** What keys do one after the other, the first one first. */
  function After(b: Browser, keys: seq<Key>, cap: nat): (r: Browser)
    requires Browsing(b) && cap > 0
    ensures Browsing(r)
    decreases |keys|
  {
    if keys == [] then b else After(Keyed(b, keys[0], cap), keys[1..], cap)
  }

  predicate NoneQuits(b: Browser, keys: seq<Key>, cap: nat)
    requires Browsing(b) && cap > 0
    decreases |keys|
  {
    keys == [] || (!Quits(b, keys[0]) && NoneQuits(Keyed(b, keys[0], cap), keys[1..], cap))
  }

  /** A session that begins with the codes of some keys goes on as if they had been pressed. */
  lemma {:induction false} KeysPressed(b: Browser, keys: seq<Key>, codes: seq<string>, input: string, at: nat, cap: nat)
    requires Browsing(b) && cap > 0 && at <= |input| && |keys| == |codes| && Sends(input, at, codes)
    requires (forall i | 0 <= i < |keys| :: codes[i] in Codes(keys[i])) && NoneQuits(b, keys, cap)
    ensures at + Length(codes) <= |input|
    ensures Session(b, input, at, cap) == Session(After(b, keys, cap), input, at + Length(codes), cap)
    decreases |keys|
  {
    hide Decode, Keyed, Quits, Codes;
    if keys != [] {
      CodeDecoded(input, at, keys[0], codes[0]);
      KeysPressed(Keyed(b, keys[0], cap), keys[1..], codes[1..], input, at + |codes[0]|, cap);
    }
  }

  /** Going up once shows the latest line of the history, which Enter then yields, cut to fit. */
  lemma UpAndEnter(h: seq<string>, max: nat, up: string, cap: nat)
    requires 1 < max && 0 < |h| && cap > 0 && Last(h) != "" && up in {[16 as char], Esc("[A")}
    ensures Session(First(h, max), up + [13 as char], 0, cap).ending == Accepted
    ensures Session(First(h, max), up + [13 as char], 0, cap).line
         == if |Last(h)| < cap then Last(h) else Last(h)[..cap - 1]
  {
    hide Decode, Moved, Added;
    var input, b := up + [13 as char], First(h, max);
    AddedTwo(h, max);
    assert input[0..0 + |up|] == up;
    CodeDecoded(input, 0, Prev, up);
    EnterDecoded(input, |up|);
    MoveShows(b, true, cap);
    var r := Keyed(b, Prev, cap);
    assert Text(r.line) == r.line.left;
    assert Session(r, input, |up|, cap) == Left(r, Enter);
  }

  lemma AddedTwo(h: seq<string>, max: nat)
    requires 1 < max && 0 < |h| && Last(h) != ""
    ensures var lines := Added(h, "", max); |lines| >= 2 && lines[|lines| - 2] == Last(h)
  {
  }

  /** Typing a line, going home and typing one more character puts that one in front. */
  lemma HomeAndType(h: seq<string>, max: nat, s: string, home: string, c: char, cap: nat)
    requires max > 0 && |s| < cap && Plain(c) && (forall i | 0 <= i < |s| :: Plain(s[i]))
    requires home in {[1 as char], Esc("[H"), Esc("OH")}
    ensures Session(First(h, max), s + home + [c, 13 as char], 0, cap).line == [c] + s
  {
    hide Decode, Added, Codes, Session, Keyed;
    var input, b := s + home + [c, 13 as char], First(h, max);
    assert b.line == Line(s[..0], "");
    TypedPart(b, input, s, 0, cap);
    var b1, b2, b3 := b.(line := Line(s, "")), b.(line := Line("", s)), b.(line := Line([c], s));
    assert input[|s|..|s| + |home|] == home;
    HomeIsCode(home);
    CodeDecoded(input, |s|, Edits(MoveHome), home);
    HomeInsert(b, s, c, cap);
    OneKey(b1, input, |s|, Edits(MoveHome), |s| + |home|, cap);
    PlainDecoded(input, |s| + |home|);
    OneKey(b2, input, |s| + |home|, Edits(Insert(c)), |s| + |home| + 1, cap);
    EnterDecoded(input, |s| + |home| + 1);
    OneQuit(b3, input, |s| + |home| + 1, cap);
  }

  lemma HomeInsert(b: Browser, s: string, c: char, cap: nat)
    requires Browsing(b) && |s| < cap
    ensures Keyed(b.(line := Line(s, "")), Edits(MoveHome), cap) == b.(line := Line("", s))
    ensures Keyed(b.(line := Line("", s)), Edits(Insert(c)), cap) == b.(line := Line([c], s))
  {
    assert s + "" == s && "" + s == s && "" + [c] == [c];
  }

  lemma OneKey(b: Browser, input: string, at: nat, key: Key, next: nat, cap: nat)
    requires Browsing(b) && cap > 0 && at < |input| && Decode(input, at) == (key, next) && !Quits(b, key)
    ensures next <= |input| && Session(b, input, at, cap) == Session(Keyed(b, key, cap), input, next, cap)
  {
    hide Decode, Keyed;
  }

  lemma OneQuit(b: Browser, input: string, at: nat, cap: nat)
    requires Browsing(b) && cap > 0 && at < |input| && Decode(input, at).0 == Enter
    ensures Session(b, input, at, cap) == Left(b, Enter)
  {
    hide Decode, Keyed;
  }

  lemma HomeIsCode(home: string)
    requires home in {[1 as char], Esc("[H"), Esc("OH")}
    ensures home in Codes(Edits(MoveHome))
  {
  }

  lemma PlainDecoded(input: string, at: nat)
    requires at < |input| && Plain(input[at])
    ensures Decode(input, at) == (Edits(Insert(input[at])), at + 1)
  {
  }

  /** Typing, before other keys. */
  lemma {:induction false} TypedPart(b: Browser, input: string, s: string, at: nat, cap: nat)
    requires Browsing(b) && at <= |s| <= cap && cap > 0 && s <= input && forall i | 0 <= i < |s| :: Plain(s[i])
    requires b.line == Line(s[..at], "")
    ensures Session(b, input, at, cap) == Session(b.(line := Line(s, "")), input, |s|, cap)
    decreases |s| - at
  {
    hide Decode, Keyed;
    if at < |s| {
      PlainDecoded(input, at);
      TypedOne(b, s, at, cap);
      var key := Edits(Insert(s[at]));
      assert Session(b, input, at, cap) == Session(Keyed(b, key, cap), input, at + 1, cap);
      TypedPart(Keyed(b, key, cap), input, s, at + 1, cap);
    } else {
      assert s[..at] == s;
    }
  }
}
