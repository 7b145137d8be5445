/** The history of linenoise: a bounded list of lines in an array that is shifted in place. */
module LinenoiseHistory {

  /** `linenoiseHistoryAdd` on the stored lines. */
  function Added(h: seq<string>, line: string, max: nat): seq<string> {
    if max == 0 || (h != [] && h[|h| - 1] == line) then h
    else (if |h| == max then h[1..] else h) + [line]
  }

  function AddedAll(h: seq<string>, lines: seq<string>, max: nat): seq<string> {
    if lines == [] then h else Added(AddedAll(h, lines[..|lines| - 1], max), lines[|lines| - 1], max)
  }

  /** Runs of equal lines reduced to one. */
  function Collapse(lines: seq<string>): seq<string> {
    if lines == [] then []
    else if |lines| > 1 && lines[|lines| - 2] == lines[|lines| - 1] then Collapse(lines[..|lines| - 1])
    else Collapse(lines[..|lines| - 1]) + [lines[|lines| - 1]]
  }

  /** The last `n` elements, or all. */
  function Latest(s: seq<string>, n: nat): seq<string> {
    if |s| <= n then s else s[|s| - n..]
  }

  lemma {:induction false} CollapseLast(lines: seq<string>)
    requires lines != []
    ensures Collapse(lines) != [] && Collapse(lines)[|Collapse(lines)| - 1] == lines[|lines| - 1]
  {
    var front := lines[..|lines| - 1];
    if |lines| > 1 && lines[|lines| - 2] == lines[|lines| - 1] {
      CollapseLast(front);
    }
  }

  lemma LatestOfNone(max: nat)
    ensures Latest([], max) == []
  {
  }

  lemma LatestAdded(all: seq<string>, line: string, max: nat)
    requires max > 0
    ensures Added(Latest(all, max), line, max)
         == if all != [] && all[|all| - 1] == line then Latest(all, max) else Latest(all + [line], max)
  {
    if all != [] {
      assert Latest(all, max)[|Latest(all, max)| - 1] == all[|all| - 1];
    }
  }

  /** Any run of additions leaves exactly the latest `max` lines, consecutive duplicates counted once. */
  lemma {:induction false} AddedAllIsLatest(lines: seq<string>, max: nat)
    requires max > 0
    ensures AddedAll([], lines, max) == Latest(Collapse(lines), max)
  {
    hide Added, Latest;
    LatestOfNone(max);
    if lines != [] {
      var n := |lines| - 1;
      var front, line := lines[..n], lines[n];
      AddedAllIsLatest(front, max);
      if n > 0 {
        CollapseLast(front);
        assert front[n - 1] == lines[n - 1];
      }
      LatestAdded(Collapse(front), line, max);
    }
  }

  /** The global history and its maximum length. */
  class History {
    var lines: array?<string>
    var len: nat
    var maxLen: nat

    constructor (maxLen: nat)
      ensures Valid() && View() == [] && this.maxLen == maxLen && lines == null
    {
      lines, len, this.maxLen := null, 0, maxLen;
    }

    ghost predicate Valid()
      reads this
    {
      len <= maxLen && if lines == null then len == 0 else lines.Length == maxLen
    }

    /** The stored lines, oldest first. */
    ghost function View(): (h: seq<string>)
      requires Valid()
      reads this, if lines == null then {} else {lines}
      ensures |h| == len
    {
      if lines == null then [] else lines[..len]
    }

    ghost function Footprint(): set<object>
      reads this
    {
      {this} + if lines == null then {} else {lines}
    }

    /** `linenoiseHistoryAdd` */
    method Add(line: string) returns (r: int)
      requires Valid()
      modifies Footprint()
      ensures Valid() && fresh(Footprint() - old(Footprint())) && maxLen == old(maxLen)
      ensures View() == Added(old(View()), line, maxLen) && len <= maxLen
      ensures r == 0 || r == 1
      ensures r == 0 <==> maxLen == 0 || (old(View()) != [] && old(View())[|old(View())| - 1] == line)
    {
      if maxLen == 0 {
        return 0;
      }
      if lines == null {
        lines := new string[maxLen](_ => "");
      }
      if len > 0 && lines[len - 1] == line {
        return 0;
      }
      if len == maxLen {
        forall i | 0 <= i < maxLen - 1 {
          lines[i] := lines[i + 1];
        }
        len := len - 1;
      }
      lines[len] := line;
      len := len + 1;
      r := 1;
    }

    /** `linenoiseHistorySetMaxLen` keeps the most recent lines, in order. */
    method SetMaxLen(n: int) returns (r: int)
      requires Valid()
      modifies this
      ensures Valid() && fresh(Footprint() - old(Footprint()))
      ensures if n < 1 then r == 0 && View() == old(View()) && maxLen == old(maxLen)
              else r == 1 && View() == Latest(old(View()), n) && maxLen == n && len <= maxLen
    {
      if n < 1 {
        return 0;
      }
      if lines != null {
        var toCopy := len;
        if n < toCopy {
          toCopy := n;
        }
        var copy := new string[n](_ => "");
        forall i | 0 <= i < toCopy {
          copy[i] := lines[len - toCopy + i];
        }
        lines := copy;
      }
      maxLen := n;
      if len > maxLen {
        len := maxLen;
      }
      r := 1;
    }

    /** `history_len--`, with the line freed */
    method DropLast()
      requires Valid() && len > 0
      modifies this`len
      ensures Valid() && View() == old(View())[..old(len) - 1]
    {
      len := len - 1;
    }
  }
}
