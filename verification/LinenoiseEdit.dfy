/**
 The line editor of linenoise in multi-line mode: editing commands on one
 buffer, each followed by a refresh of the terminal, and browsing the history.
 */
module LinenoiseEdit {
  import opened Basics
  import opened LinenoiseScreen
  import opened LinenoiseHistory

  // ----- editing, on the text left and right of the cursor

  datatype Line = Line(left: string, right: string)

  function Text(l: Line): string { l.left + l.right }

  datatype Command =
    | Insert(c: char) | Delete | Backspace | MoveLeft | MoveRight | MoveHome | MoveEnd
    | DeletePrevWord | Transpose | KillLine | KillToEnd

  function DropSpaces(s: string): string {
    if s != "" && Last(s) == ' ' then DropSpaces(Front(s)) else s
  }

  function DropWord(s: string): string {
    if s != "" && Last(s) != ' ' then DropWord(Front(s)) else s
  }

  /** What a command does to a line that holds at most `cap` characters. */
  function Edited(l: Line, k: Command, cap: nat): Line {
    match k
    case Insert(c) => if |Text(l)| < cap then Line(l.left + [c], l.right) else l
    case Delete => if l.right != "" then Line(l.left, l.right[1..]) else l
    case Backspace => if l.left != "" then Line(Front(l.left), l.right) else l
    case MoveLeft => if l.left != "" then Line(Front(l.left), [Last(l.left)] + l.right) else l
    case MoveRight => if l.right != "" then Line(l.left + [l.right[0]], l.right[1..]) else l
    case MoveHome => Line("", Text(l))
    case MoveEnd => Line(Text(l), "")
    case DeletePrevWord => Line(DropWord(DropSpaces(l.left)), l.right)
    case Transpose =>
      if l.left == "" || l.right == "" then l
      else
        var swapped := Line(Front(l.left) + [l.right[0]], [Last(l.left)] + l.right[1..]);
        if |l.right| > 1 then Line(swapped.left + [Last(l.left)], l.right[1..]) else swapped
    case KillLine => Line("", "")
    case KillToEnd => Line(l.left, "")
  }

  predicate Moving(k: Command) { k == MoveLeft || k == MoveRight || k == MoveHome || k == MoveEnd }

  /** Moving never changes the text. */
  lemma MovingKeepsText(l: Line, k: Command, cap: nat)
    requires Moving(k)
    ensures Text(Edited(l, k, cap)) == Text(l)
  {
    if k == MoveLeft && l.left != "" {
      assert Front(l.left) + ([Last(l.left)] + l.right) == (Front(l.left) + [Last(l.left)]) + l.right;
    } else if k == MoveRight && l.right != "" {
      assert (l.left + [l.right[0]]) + l.right[1..] == l.left + ([l.right[0]] + l.right[1..]);
    }
  }

  /**
     What the commands do to the whole text and the number of characters left of
     the cursor.
     */
  lemma EditedAsText(l: Line, k: Command, cap: nat)
    ensures var (t, p, r) := (Text(l), |l.left|, Edited(l, k, cap));
            && r.left == Text(r)[..|r.left|]
            && match k
               case Insert(c) =>
                 if |t| < cap then Text(r) == t[..p] + [c] + t[p..] && |r.left| == p + 1 else r == l
               case Delete => Text(r) == (if p < |t| then t[..p] + t[p + 1..] else t) && |r.left| == p
               case Backspace =>
                 if p > 0 then Text(r) == t[..p - 1] + t[p..] && |r.left| == p - 1 else r == l
               case MoveLeft => Text(r) == t && |r.left| == (if p > 0 then p - 1 else 0)
               case MoveRight => Text(r) == t && |r.left| == (if p < |t| then p + 1 else |t|)
               case MoveHome => Text(r) == t && |r.left| == 0
               case MoveEnd => Text(r) == t && |r.left| == |t|
               case KillLine => Text(r) == "" && |r.left| == 0
               case KillToEnd => Text(r) == t[..p] && |r.left| == p
               case DeletePrevWord => |r.left| <= p && Text(r) == t[..|r.left|] + t[p..]
               case Transpose => |Text(r)| == |t| && p <= |r.left| <= p + 1
  {
    hide DropWord, DropSpaces;
    var t, p := Text(l), |l.left|;
    assert t[..p] == l.left && t[p..] == l.right;
    match k {
      case Insert(c) =>
        assert (l.left + [c]) + l.right == l.left + [c] + l.right;
      case Delete =>
        if l.right != "" { assert t[p + 1..] == l.right[1..]; }
      case Backspace =>
        if l.left != "" { assert t[..p - 1] == Front(l.left); }
      case MoveLeft => MovingKeepsText(l, k, cap);
      case MoveRight => MovingKeepsText(l, k, cap);
      case DeletePrevWord => PrevWordAsText(l);
      case _ =>
    }
  }

  lemma PrevWordAsText(l: Line)
    ensures var (t, kept) := (Text(l), DropWord(DropSpaces(l.left)));
            |kept| <= |l.left| && kept == t[..|kept|] && l.right == t[|l.left|..]
  {
    hide DropWord, DropSpaces;
    PrevWordRemoved(l.left);
    PrevWordRemoved(DropSpaces(l.left));
    var kept := DropWord(DropSpaces(l.left));
    assert Text(l)[..|kept|] == kept;
  }

  /** An insertion is undone from either side of the new character. */
  lemma InsertUndone(l: Line, c: char, cap: nat)
    requires |Text(l)| < cap
    ensures Edited(Edited(l, Insert(c), cap), Backspace, cap) == l
    ensures Edited(Edited(Edited(l, Insert(c), cap), MoveLeft, cap), Delete, cap) == l
  {
    hide Text;
    assert Front(l.left + [c]) == l.left && Last(l.left + [c]) == c;
    assert ([c] + l.right)[1..] == l.right;
  }

  /** Transposing swaps two neighbours and nothing else. */
  lemma TransposeReorders(l: Line, cap: nat)
    requires l.left != "" && l.right != ""
    ensures var at := |l.left| - 1;
            Text(Edited(l, Transpose, cap)) == Text(l)[at := l.right[0]][at + 1 := Last(l.left)]
    ensures |Edited(l, Transpose, cap).left| == |l.left| + if |l.right| > 1 then 1 else 0
  {
    var a, x, y, b := Front(l.left), Last(l.left), l.right[0], l.right[1..];
    assert l.left == a + [x] && l.right == [y] + b;
    assert (a + [y]) + ([x] + b) == (a + [y] + [x]) + b;
    assert ((a + [x]) + ([y] + b))[|a| := y][|a| + 1 := x] == (a + [y]) + ([x] + b);
  }

  predicate All(s: string, blank: bool) { forall i | 0 <= i < |s| :: (s[i] == ' ') == blank }

  /** `r` is `s` without the longest end that consists of blanks, or of other characters. */
  predicate Stripped(s: string, r: string, blank: bool) {
    && |r| <= |s| && r == s[..|r|] && All(s[|r|..], blank)
    && (r != "" ==> (Last(r) == ' ') != blank)
  }

  /** What Ctrl-W takes away: all the blanks left of the cursor, then the whole word before them. */
  lemma {:induction false} PrevWordRemoved(s: string)
    ensures Stripped(s, DropSpaces(s), true)
    ensures Stripped(s, DropWord(s), false)
  {
    if s != "" {
      PrevWordRemoved(Front(s));
      if Last(s) == ' ' { StrippedMore(s, DropSpaces(s), true); } else { StrippedMore(s, DropWord(s), false); }
    }
  }

  lemma StrippedMore(s: string, r: string, blank: bool)
    requires s != "" && (Last(s) == ' ') == blank && Stripped(Front(s), r, blank)
    ensures Stripped(s, r, blank)
  {
    assert s[|r|..] == Front(s)[|r|..] + [Last(s)];
    assert s[..|r|] == Front(s)[..|r|];
  }

  // ----- browsing

  /** The editor as it walks the history: entry `|lines| - 1 - index` stands for the line being edited. */
  datatype Browser = Browser(lines: seq<string>, index: nat, line: Line)

  predicate Browsing(b: Browser) { b.index < |b.lines| }

  function Slot(b: Browser): nat
    requires Browsing(b)
  {
    |b.lines| - 1 - b.index
  }

  /** What `strncpy` into a buffer of `cap + 1` characters and a NUL at `cap - 1` make of a line. */
  function Fitted(s: string, cap: nat): string
    requires cap > 0
  {
    if |s| < cap then s else s[..cap - 1]
  }

  function Moved(b: Browser, prev: bool, cap: nat): Browser
    requires Browsing(b) && cap > 0
  {
    if |b.lines| <= 1 then b
    else
      var lines := b.lines[Slot(b) := Text(b.line)];
      var index := if prev then b.index + 1 else b.index - 1;
      if index < 0 || index >= |lines| then Browser(lines, b.index, b.line)
      else Browser(lines, index, Line(Fitted(lines[|lines| - 1 - index], cap), ""))
  }

  /** The history with the line being edited in its place. */
  function Overlay(b: Browser): seq<string>
    requires Browsing(b)
  {
    b.lines[Slot(b) := Text(b.line)]
  }

  /** The entry that a move would show, if it moves at all. */
  function Target(b: Browser, prev: bool): int
    requires Browsing(b)
  {
    if |b.lines| <= 1 then -1
    else if prev then if b.index + 1 < |b.lines| then Slot(b) - 1 else -1
    else if b.index > 0 then Slot(b) + 1 else -1
  }

  /** A move up or down loses nothing, at either end too, exactly if the line it shows fits the buffer. */
  lemma MoveKeepsOverlayIff(b: Browser, prev: bool, cap: nat)
    requires Browsing(b) && cap > 0
    ensures Browsing(Moved(b, prev, cap))
    ensures Overlay(Moved(b, prev, cap)) == Overlay(b) <==> Target(b, prev) >= 0 ==> |b.lines[Target(b, prev)]| < cap
  {
    var lines := b.lines[Slot(b) := Text(b.line)];
    var b' := Moved(b, prev, cap);
    var t := Target(b, prev);
    if t >= 0 {
      assert lines[t] == b.lines[t] && Slot(b') == t;
      assert Overlay(b')[t] == Fitted(b.lines[t], cap);
      if |b.lines[t]| < cap {
        assert Overlay(b') == lines;
      } else {
        assert Overlay(b)[t] == b.lines[t];
      }
    } else if |b.lines| > 1 {
      assert Overlay(b') == lines;
    }
  }

  /** Whatever the size of the buffer, a history line that does not fit it is cut by going up to it. */
  lemma LongLineLost(s: string, cap: nat)
    requires 0 < cap <= |s|
    ensures var b := Browser([s, ""], 0, Line("", ""));
            && Overlay(b) == [s, ""]
            && Overlay(Moved(b, true, cap)) == [s[..cap - 1], ""] != Overlay(b)
  {
    var b := Browser([s, ""], 0, Line("", ""));
    assert b.lines[1 := ""] == b.lines && "" + "" == "";
    var m := Moved(b, true, cap);
    var cut := s[..cap - 1];
    assert m.lines == b.lines && m.index == 1 && m.line == Line(cut, "");
    assert cut + "" == cut;
    assert b.lines[0 := cut] == [cut, ""];
    assert [cut, ""][0] != [s, ""][0];
  }

  /** Going up or down leaves the line behind in its place and shows the next one, cut to fit, cursor at its end. */
  lemma MoveShows(b: Browser, prev: bool, cap: nat)
    requires Browsing(b) && cap > 0
    ensures var (r, at) := (Moved(b, prev, cap), Slot(b) + if prev then -1 else 1);
            if 0 <= at < |b.lines| then
              && Browsing(r) && Slot(r) == at && r.lines == b.lines[Slot(b) := Text(b.line)]
              && r.line.right == "" && r.line.left == b.lines[at][..|r.line.left|]
              && |r.line.left| == (if |b.lines[at]| < cap then |b.lines[at]| else cap - 1)
            else
              r.line == b.line && r.index == b.index && |r.lines| == |b.lines|
              && (|b.lines| > 1 ==> r.lines == b.lines[Slot(b) := Text(b.line)])
  {
  }

  function Moves(b: Browser, prev: bool, k: nat, cap: nat): (r: Browser)
    requires Browsing(b) && cap > 0
    ensures Browsing(r)
  {
    if k == 0 then b
    else
      var b' := Moves(b, prev, k - 1, cap);
      MoveKeepsOverlayIff(b', prev, cap);
      Moved(b', prev, cap)
  }

  predicate AllFit(b: Browser, cap: nat)
    requires Browsing(b)
  {
    forall i | 0 <= i < |b.lines| :: |Overlay(b)[i]| < cap
  }

  lemma {:induction false} MovesKeepOverlay(b: Browser, prev: bool, k: nat, cap: nat)
    requires Browsing(b) && cap > 0 && AllFit(b, cap)
    requires if prev then b.index + k < |b.lines| else k <= b.index
    ensures var r := Moves(b, prev, k, cap);
            && Overlay(r) == Overlay(b) && |r.lines| == |b.lines|
            && r.index == if prev then b.index + k else b.index - k
    decreases k
  {
    if k > 0 {
      MovesKeepOverlay(b, prev, k - 1, cap);
      var r := Moves(b, prev, k - 1, cap);
      MoveKeepsOverlayIff(r, prev, cap);
      var t := Target(r, prev);
      assert Overlay(r)[t] == r.lines[t];
      assert |Overlay(b)[t]| < cap;
    }
  }

  /** `k` steps up and `k` steps down restore the line, wherever browsing started. */
  lemma UpThenDownRestores(b: Browser, k: nat, cap: nat)
    requires Browsing(b) && cap > 0 && AllFit(b, cap) && b.index + k < |b.lines|
    ensures var r := Moves(Moves(b, true, k, cap), false, k, cap);
            Text(r.line) == Text(b.line) && r.index == b.index && Overlay(r) == Overlay(b)
  {
    var up := Moves(b, true, k, cap);
    MovesKeepOverlay(b, true, k, cap);
    assert AllFit(up, cap) by {
      assert forall i | 0 <= i < |up.lines| :: Overlay(up)[i] == Overlay(b)[i];
      assert forall i | 0 <= i < |b.lines| :: |Overlay(b)[i]| < cap;
    }
    MovesKeepOverlay(up, false, k, cap);
    var r := Moves(up, false, k, cap);
    assert Overlay(r)[Slot(r)] == Text(r.line) && Overlay(b)[Slot(b)] == Text(b.line);
  }
}
