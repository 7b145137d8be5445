/**
 The fuzzy matcher of the documentation search: a scoring automaton over a
 pattern and a string, with the overflow checks of the Nim run time.
 */
module FuzzyMatch {
  import opened Basics
  import opened Results

  /** A JavaScript string. */
  type Text = seq<Unit>

  const MAX_INT := 0x7FFF_FFFF

  predicate Upper(c: Unit) { 65 <= c <= 90 }

  predicate Lower(c: Unit) { 97 <= c <= 122 }

  predicate Letter(c: Unit) { Upper(c) || Lower(c) }

  /** `nsuToLowerAsciiChar`: for these letters, `c ^ 32` is `c + 32`. */
  function ToLower(c: Unit): Unit { if Upper(c) then c + 32 else c }

  predicate Ignored(c: Unit) { c == 95 || c == 32 || c == 46 }

  const COLON := 58

  /** The score states. */
  const START_MATCH := -100
  const LEADING_CHAR_DIFF := -3
  const CHAR_DIFF := -1
  const CHAR_MATCH := 0
  const CONSECUTIVE_MATCH := 5
  const LEADING_CHAR_MATCH := 10
  const WORD_BOUNDARY_MATCH := 20

  datatype St = St(state: int, header: bool, leading: nat, consecutive: nat, strIndex: nat, patIndex: nat, score: int)

  const INITIAL := St(START_MATCH, false, 0, 0, 0, 0, 0)

  predicate Running(pattern: Text, str: Text, st: St) { st.strIndex < |str| && st.patIndex < |pattern| }

  predicate OnBoundary(pattern: Text, str: Text, st: St)
    requires Running(pattern, str, st)
  {
    || st.patIndex == |pattern| - 1
    || (st.strIndex < |str| - 1
        && var next := ToLower(str[st.strIndex + 1]);
           !Lower(next) && next != ToLower(pattern[st.patIndex + 1]))
  }

  /** The character starts a word, by a separator or by camel case. */
  predicate LeadingChar(str: Text, i: nat)
    requires 0 < i < |str|
  {
    !Letter(str[i - 1]) || (Lower(str[i - 1]) && Upper(str[i]))
  }

  function Matched(pattern: Text, str: Text, st: St): St
    requires Running(pattern, str, st) && (st.state < 0 && st.state != START_MATCH ==> st.strIndex > 0)
  {
    var next := st.(patIndex := st.patIndex + 1, strIndex := st.strIndex + 1);
    if st.state == START_MATCH || st.state == WORD_BOUNDARY_MATCH then next.(state := LEADING_CHAR_MATCH)
    else if st.state == CHAR_MATCH then next.(state := CONSECUTIVE_MATCH, score := st.score + CONSECUTIVE_MATCH)
    else if st.state == LEADING_CHAR_MATCH || st.state == CONSECUTIVE_MATCH then
      var n := st.consecutive + 1;
      var score := st.score + CONSECUTIVE_MATCH * n;
      if OnBoundary(pattern, str, st) then
        next.(consecutive := n, state := WORD_BOUNDARY_MATCH, score := score + WORD_BOUNDARY_MATCH)
      else next.(consecutive := n, state := CONSECUTIVE_MATCH, score := score)
    else if st.state == CHAR_DIFF || st.state == LEADING_CHAR_DIFF then
      if LeadingChar(str, st.strIndex) then next.(state := LEADING_CHAR_MATCH) else next.(state := CHAR_MATCH)
    else next
  }

  function Mismatched(st: St): St {
    var next := st.(strIndex := st.strIndex + 1);
    if st.state == START_MATCH then next.(state := LEADING_CHAR_DIFF, score := st.score + LEADING_CHAR_DIFF)
    else if st.state == CONSECUTIVE_MATCH then
      next.(state := CHAR_DIFF, score := st.score + CHAR_DIFF, consecutive := 0)
    else if st.state == LEADING_CHAR_DIFF then
      next.(leading := st.leading + 1, score := st.score + if st.leading < 3 then LEADING_CHAR_DIFF else 0)
    else next.(state := CHAR_DIFF, score := st.score + CHAR_DIFF)
  }

  /** One turn of the loop, without overflow checks. */
  function Step(pattern: Text, str: Text, st: St): St
    requires Running(pattern, str, st) && (st.state < 0 && st.state != START_MATCH ==> st.strIndex > 0)
  {
    var p, c := ToLower(pattern[st.patIndex]), ToLower(str[st.strIndex]);
    if Ignored(p) then st.(patIndex := st.patIndex + 1)
    else if Ignored(c) then st.(strIndex := st.strIndex + 1)
    else if !st.header && c == COLON then
      st.(header := true, state := START_MATCH, score := st.score / 2, patIndex := 0, strIndex := st.strIndex + 1)
    else if c == p then Matched(pattern, str, st)
    else Mismatched(st)
  }

  // ----- the invariant of every run

  /** The sum of `5 * k + 20` for `k` from 1 to `n`. */
  function Bound(n: nat): nat {
    if n == 0 then 0 else Bound(n - 1) + 5 * n + 20
  }

  lemma {:induction false} BoundIs(n: nat)
    ensures 2 * Bound(n) == 5 * n * (n + 1) + 40 * n
  {
    if n > 0 {
      BoundIs(n - 1);
    }
  }

  lemma {:induction false} BoundGrows(m: nat, n: nat)
    requires m <= n
    ensures Bound(m) <= Bound(n)
    decreases n
  {
    if m < n {
      BoundGrows(m, n - 1);
    }
  }

  predicate ScoreState(s: int) {
    s in {START_MATCH, LEADING_CHAR_DIFF, CHAR_DIFF, CHAR_MATCH, CONSECUTIVE_MATCH, LEADING_CHAR_MATCH,
          WORD_BOUNDARY_MATCH}
  }

  /** One of the seven states; the counters and the score are bounded by how much of the string was read. */
  predicate Inv(pattern: Text, str: Text, st: St) {
    && ScoreState(st.state)
    && st.strIndex <= |str| && st.patIndex <= |pattern|
    && (st.state < 0 && st.state != START_MATCH ==> st.strIndex > 0)
    && st.consecutive <= st.strIndex && st.leading <= st.strIndex
    && -3 * st.strIndex <= st.score <= Bound(st.strIndex)
  }

  lemma MatchedKeepsInv(pattern: Text, str: Text, st: St)
    requires Inv(pattern, str, st) && Running(pattern, str, st)
    ensures Inv(pattern, str, Matched(pattern, str, st))
  {
    hide OnBoundary, LeadingChar;
  }

  lemma MismatchedKeepsInv(pattern: Text, str: Text, st: St)
    requires Inv(pattern, str, st) && Running(pattern, str, st)
    ensures Inv(pattern, str, Mismatched(st))
  {
  }

  lemma StepKeepsInv(pattern: Text, str: Text, st: St)
    requires Inv(pattern, str, st) && Running(pattern, str, st)
    ensures Inv(pattern, str, Step(pattern, str, st))
  {
    hide Matched, Mismatched;
    MatchedKeepsInv(pattern, str, st);
    MismatchedKeepsInv(pattern, str, st);
    BoundGrows(st.strIndex, st.strIndex + 1);
  }

  /** Each turn comes closer to the end, although a colon sends the pattern back to its start. */
  lemma StepDecreases(pattern: Text, str: Text, st: St)
    requires Inv(pattern, str, st) && Running(pattern, str, st)
    ensures var t := Step(pattern, str, st);
            |str| - t.strIndex < |str| - st.strIndex
            || (t.strIndex == st.strIndex && |pattern| - t.patIndex < |pattern| - st.patIndex)
  {
  }

  /** The state in which the loop ends. */
  function Scan(pattern: Text, str: Text, st: St): (t: St)
    requires Inv(pattern, str, st)
    ensures Inv(pattern, str, t) && !Running(pattern, str, t)
    decreases |str| - st.strIndex, |pattern| - st.patIndex
  {
    if !Running(pattern, str, st) then st
    else
      StepKeepsInv(pattern, str, st);
      StepDecreases(pattern, str, st);
      Scan(pattern, str, Step(pattern, str, st))
  }

  datatype Verdict = Verdict(score: int, matched: bool)

  predicate Bonus(pattern: Text, str: Text, st: St)
    requires Inv(pattern, str, st)
  {
    st.patIndex == |pattern| && (st.strIndex == |str| || !Letter(str[st.strIndex]))
  }

  function FinalScore(pattern: Text, str: Text): int {
    var st := Scan(pattern, str, INITIAL);
    st.score + if Bonus(pattern, str, st) then 10 else 0
  }

  function Match(pattern: Text, str: Text): Verdict {
    var score := FinalScore(pattern, str);
    Verdict(if score < 0 then 0 else score, score > 0)
  }

  /** How far the final score can go, for strings of a given length. */
  lemma ScoreRange(pattern: Text, str: Text)
    ensures -3 * |str| <= FinalScore(pattern, str) <= Bound(|str|) + 10
  {
    BoundGrows(Scan(pattern, str, INITIAL).strIndex, |str|);
  }

  // ----- the case of the pattern

  function Lowered(s: Text): (r: Text)
    ensures |r| == |s|
  {
    seq(|s|, i requires 0 <= i < |s| => ToLower(s[i]))
  }

  lemma StepIgnoresCase(p: Text, q: Text, str: Text, st: St)
    requires Lowered(p) == Lowered(q) && Inv(p, str, st) && Running(p, str, st)
    ensures Inv(q, str, st) && Running(q, str, st) && Step(p, str, st) == Step(q, str, st)
  {
    assert Lowered(p)[st.patIndex] == Lowered(q)[st.patIndex];
    if st.patIndex + 1 < |p| {
      assert Lowered(p)[st.patIndex + 1] == Lowered(q)[st.patIndex + 1];
    }
  }

  lemma {:induction false} ScanIgnoresCase(p: Text, q: Text, str: Text, st: St)
    requires Lowered(p) == Lowered(q) && Inv(p, str, st) && Inv(q, str, st)
    ensures Scan(p, str, st) == Scan(q, str, st)
    decreases |str| - st.strIndex, |p| - st.patIndex
  {
    hide Step, Lowered;
    if Running(p, str, st) {
      StepIgnoresCase(p, q, str, st);
      StepKeepsInv(p, str, st);
      StepKeepsInv(q, str, st);
      StepDecreases(p, str, st);
      ScanIgnoresCase(p, q, str, Step(p, str, st));
    }
  }

  /** Patterns that differ in the case of ASCII letters only match alike. */
  lemma MatchIgnoresPatternCase(p: Text, q: Text, str: Text)
    requires Lowered(p) == Lowered(q)
    ensures Match(p, str) == Match(q, str)
  {
    ScanIgnoresCase(p, q, str, INITIAL);
  }

  // ----- what runs of hits and of misses are worth

  /** `5 * k` for `k` from `c + 1` to `c + m`. */
  function Rise(c: nat, m: nat): nat
    decreases m
  {
    if m == 0 then 0 else 5 * (c + 1) + Rise(c + 1, m - 1)
  }

  lemma {:induction false} RiseIs(c: nat, m: nat)
    ensures 2 * Rise(c, m) == 5 * m * (2 * c + m + 1)
    decreases m
  {
    if m > 0 {
      RiseIs(c + 1, m - 1);
      OneMore(m - 1, 2 * c + m + 1);
    }
  }

  lemma OneMore(a: nat, b: nat)
    ensures 5 * (a + 1) * b == 5 * a * (b + 1) + 5 * (b - a)
  {
    var x := a * b;
    assert (a + 1) * b == x + b && a * (b + 1) == x + a;
    assert 5 * (a + 1) * b == 5 * ((a + 1) * b) && 5 * a * (b + 1) == 5 * (a * (b + 1));
  }

  /** The two units are equal, or the two cases of one ASCII letter. */
  predicate SameLetter(a: Unit, b: Unit) {
    a == b || (65 <= a <= 90 && b == a + 32) || (65 <= b <= 90 && a == b + 32)
  }

  lemma SameLetterIff(a: Unit, b: Unit)
    ensures SameLetter(a, b) <==> ToLower(a) == ToLower(b)
  {
  }

  /** The next unit of the string is neither passed over nor a header's colon, and so is the next of the pattern. */
  predicate Weighed(pattern: Text, str: Text, st: St) {
    && Running(pattern, str, st)
    && pattern[st.patIndex] !in {32, 46, 95} && str[st.strIndex] !in {32, 46, 95}
    && (str[st.strIndex] == 58 ==> st.header)
  }

  lemma HitStep(pattern: Text, str: Text, st: St)
    requires Inv(pattern, str, st) && Weighed(pattern, str, st)
    requires SameLetter(pattern[st.patIndex], str[st.strIndex])
    ensures Inv(pattern, str, Matched(pattern, str, st))
    ensures Scan(pattern, str, st) == Scan(pattern, str, Matched(pattern, str, st))
  {
    hide Matched, Mismatched, Inv, Bound;
    SameLetterIff(pattern[st.patIndex], str[st.strIndex]);
    InvState(pattern, str, st);
    MatchedKeepsInv(pattern, str, st);
    assert Step(pattern, str, st) == Matched(pattern, str, st);
  }

  lemma MissStep(pattern: Text, str: Text, st: St)
    requires Inv(pattern, str, st) && Weighed(pattern, str, st)
    requires !SameLetter(pattern[st.patIndex], str[st.strIndex])
    ensures Inv(pattern, str, Mismatched(st))
    ensures Scan(pattern, str, st) == Scan(pattern, str, Mismatched(st))
  {
    hide Matched, Mismatched, Inv, Bound;
    SameLetterIff(pattern[st.patIndex], str[st.strIndex]);
    InvState(pattern, str, st);
    MismatchedKeepsInv(pattern, str, st);
    assert Step(pattern, str, st) == Mismatched(st);
  }

  lemma InvState(pattern: Text, str: Text, st: St)
    requires Inv(pattern, str, st)
    ensures st.state < 0 && st.state != START_MATCH ==> st.strIndex > 0
  {
  }

  /** `m` units lie ahead in both texts, each a small letter of the string and the same letter in the pattern. */
  predicate LettersAhead(pattern: Text, str: Text, i: nat, j: nat, m: nat)
    decreases m
  {
    && i + m <= |pattern| && j + m <= |str|
    && (m == 0
        || (97 <= str[j] <= 122 && SameLetter(pattern[i], str[j]) && LettersAhead(pattern, str, i + 1, j + 1, m - 1)))
  }

  predicate SomeLetter(c: Unit) { 65 <= c <= 90 || 97 <= c <= 122 }

  /** At a word's end: nothing of the pattern is left, or what comes next is no letter and not what it asks for. */
  predicate WordEnds(pattern: Text, str: Text, i: nat, j: nat)
    requires i <= |pattern| && j <= |str|
  {
    i == |pattern|
    || (j < |str| && !SomeLetter(str[j]) && str[j] != pattern[i])
  }

  /** Hits in a row: 5 for the first, 10 for the second and so on, and 20 if a word ends there. */
  lemma {:induction false} HitRun(pattern: Text, str: Text, st: St, m: nat) returns (t: St)
    requires Inv(pattern, str, st) && m > 0 && (st.state == 10 || st.state == 5)
    requires LettersAhead(pattern, str, st.patIndex, st.strIndex, m)
    ensures t == st.(state := if WordEnds(pattern, str, st.patIndex + m, st.strIndex + m) then 20 else 5,
                     consecutive := st.consecutive + m, patIndex := st.patIndex + m, strIndex := st.strIndex + m,
                     score := st.score + Rise(st.consecutive, m)
                              + if WordEnds(pattern, str, st.patIndex + m, st.strIndex + m) then 20 else 0)
    ensures Inv(pattern, str, t) && Scan(pattern, str, t) == Scan(pattern, str, st)
    decreases m
  {
    hide Inv, Matched, Bound;
    HitGains(pattern, str, st, m);
    HitStep(pattern, str, st);
    t := Matched(pattern, str, st);
    if m > 1 {
      t := HitRun(pattern, str, t, m - 1);
    }
  }

  lemma HitGains(pattern: Text, str: Text, st: St, m: nat)
    requires m > 0 && (st.state == 10 || st.state == 5)
    requires LettersAhead(pattern, str, st.patIndex, st.strIndex, m)
    ensures Weighed(pattern, str, st) && SameLetter(pattern[st.patIndex], str[st.strIndex])
    ensures var ends := m == 1 && WordEnds(pattern, str, st.patIndex + 1, st.strIndex + 1);
            Matched(pattern, str, st)
            == st.(state := if ends then 20 else 5, consecutive := st.consecutive + 1,
                   patIndex := st.patIndex + 1, strIndex := st.strIndex + 1,
                   score := st.score + 5 * (st.consecutive + 1) + if ends then 20 else 0)
  {
    if m > 1 {
      SameLetterIff(pattern[st.patIndex + 1], str[st.strIndex + 1]);
    } else if st.patIndex + 1 < |pattern| && st.strIndex + 1 < |str| {
      SmallOrNot(str[st.strIndex + 1], pattern[st.patIndex + 1]);
    }
  }

  lemma SmallOrNot(c: Unit, p: Unit)
    ensures !Lower(ToLower(c)) && ToLower(c) != ToLower(p)
       <==> !SomeLetter(c) && c != p
  {
  }

  /** A text that starts a word there: at its very start, behind something else than a letter, or at a hump. */
  predicate StartsWord(str: Text, j: nat)
    requires j < |str|
  {
    j == 0 || !SomeLetter(str[j - 1]) || (97 <= str[j - 1] <= 122 && 65 <= str[j] <= 90)
  }

  /** The first hit after misses or at the start: worth nothing by itself. */
  lemma FirstHit(pattern: Text, str: Text, st: St) returns (t: St)
    requires Inv(pattern, str, st) && Weighed(pattern, str, st)
    requires SameLetter(pattern[st.patIndex], str[st.strIndex])
    requires st.state in {-100, -3, -1, 20}
    ensures t == st.(state := if st.state == -100 || st.state == 20 || StartsWord(str, st.strIndex) then 10 else 0,
                     patIndex := st.patIndex + 1, strIndex := st.strIndex + 1)
    ensures Inv(pattern, str, t) && Scan(pattern, str, t) == Scan(pattern, str, st)
  {
    hide Bound;
    HitStep(pattern, str, st);
    t := Matched(pattern, str, st);
  }

  /** A second hit inside a word is worth 5, and does not count as one in a row. */
  lemma SecondHit(pattern: Text, str: Text, st: St) returns (t: St)
    requires Inv(pattern, str, st) && Weighed(pattern, str, st)
    requires SameLetter(pattern[st.patIndex], str[st.strIndex]) && st.state == 0
    ensures t == st.(state := 5, score := st.score + 5, patIndex := st.patIndex + 1, strIndex := st.strIndex + 1)
    ensures Inv(pattern, str, t) && Scan(pattern, str, t) == Scan(pattern, str, st)
  {
    hide Bound;
    HitStep(pattern, str, st);
    t := Matched(pattern, str, st);
  }

  /** `m` units lie ahead that are not passed over, no colon, and not the letter that the pattern asks for. */
  predicate MissesAhead(pattern: Text, str: Text, i: nat, j: nat, m: nat) {
    && i < |pattern| && pattern[i] !in {32, 46, 95} && j + m <= |str|
    && forall k | j <= k < j + m :: str[k] !in {32, 46, 58, 95} && !SameLetter(pattern[i], str[k])
  }

  /** Misses at the start cost 3 each, four of them at most. */
  lemma {:induction false} LeadingMisses(pattern: Text, str: Text, st: St, m: nat) returns (t: St)
    requires Inv(pattern, str, st) && MissesAhead(pattern, str, st.patIndex, st.strIndex, m)
    requires st.state == -100 && st.leading == 0
    ensures t == st.(state := if m == 0 then -100 else -3, leading := if m == 0 then 0 else m - 1,
                     strIndex := st.strIndex + m, score := st.score - 3 * Least(m, 4))
    ensures Inv(pattern, str, t) && Scan(pattern, str, t) == Scan(pattern, str, st)
    decreases m
  {
    hide Inv, Bound;
    if m == 0 {
      t := st;
    } else {
      t := LeadingMisses(pattern, str, st, m - 1);
      MissStep(pattern, str, t);
      t := Mismatched(t);
    }
  }

  function Least(a: nat, b: nat): nat { if a < b then a else b }

  /** Later misses cost 1 each; they end a row of hits unless a word had ended with it. */
  lemma {:induction false} LaterMisses(pattern: Text, str: Text, st: St, m: nat) returns (t: St)
    requires Inv(pattern, str, st) && MissesAhead(pattern, str, st.patIndex, st.strIndex, m)
    requires st.state in {-1, 0, 5, 10, 20} && m > 0
    ensures t == st.(state := -1, strIndex := st.strIndex + m, score := st.score - m,
                     consecutive := if st.state == 5 then 0 else st.consecutive)
    ensures Inv(pattern, str, t) && Scan(pattern, str, t) == Scan(pattern, str, st)
    decreases m
  {
    hide Inv, Bound;
    t := st;
    if m > 1 {
      t := LaterMisses(pattern, str, st, m - 1);
    }
    MissStep(pattern, str, t);
    t := Mismatched(t);
  }

  // ----- what whole words are worth

  /** What `m` hits in a row are worth after `c` others: 5 times the numbers from `c + 1` to `c + m`. */
  function Row(c: nat, m: nat): int { 5 * m * (2 * c + m + 1) / 2 }

  lemma RowIs(c: nat, m: nat)
    ensures Row(c, m) == Rise(c, m)
  {
    RiseIs(c, m);
  }

  /** At least two letters, small ones from the second on. */
  predicate Word(w: Text) {
    |w| >= 2 && SomeLetter(w[0]) && forall k | 1 <= k < |w| :: 97 <= w[k] <= 122
  }

  /** The same letters, in any case. */
  predicate Spells(p: Text, w: Text) {
    |p| == |w| && forall k | 0 <= k < |w| :: SameLetter(p[k], w[k])
  }

  /** No unit of it is passed over, a colon, or the letter `c` in either case. */
  predicate Misses(g: Text, c: Unit) {
    forall k | 0 <= k < |g| :: g[k] !in {32, 46, 58, 95} && !SameLetter(c, g[k])
  }

  /** What the last word of the pattern is worth, `c` hits in a row before it: less inside a word of the string. */
  function WordWorth(c: nat, n: nat, starts: bool): int
    requires n >= 2
  {
    if starts then Row(c, n - 1) + 20 else if n == 2 then 5 else 5 + Row(c, n - 2) + 20
  }

  lemma {:induction false} WordAhead(p: Text, w: Text, str: Text, i: nat, j: nat, k: nat)
    requires Word(w) && 1 <= k <= |w| && i + |w| <= |p| && j + |w| <= |str|
    requires Spells(p[i..i + |w|], w) && str[j..j + |w|] == w
    ensures LettersAhead(p, str, i + k, j + k, |w| - k)
    decreases |w| - k
  {
    if k < |w| {
      assert p[i + k] == p[i..i + |w|][k] && str[j + k] == str[j..j + |w|][k];
      WordAhead(p, w, str, i, j, k + 1);
    }
  }

  lemma WordBegins(p: Text, w: Text, str: Text, st: St)
    requires st.patIndex + |w| <= |p| && st.strIndex + |w| <= |str| && Word(w)
    requires Spells(p[st.patIndex..st.patIndex + |w|], w) && str[st.strIndex..st.strIndex + |w|] == w
    ensures Weighed(p, str, st) && SameLetter(p[st.patIndex], str[st.strIndex])
  {
    assert p[st.patIndex] == p[st.patIndex..st.patIndex + |w|][0];
    assert str[st.strIndex] == str[st.strIndex..st.strIndex + |w|][0];
  }

  /** A word that begins where a row of hits can begin. */
  lemma FirstWord(p: Text, w: Text, str: Text, st: St) returns (t: St)
    requires Inv(p, str, st) && st.strIndex < |str|
    requires st.state == -100 || (st.state in {-3, -1, 20} && StartsWord(str, st.strIndex))
    requires st.patIndex + |w| <= |p| && st.strIndex + |w| <= |str| && Word(w)
    requires Spells(p[st.patIndex..st.patIndex + |w|], w) && str[st.strIndex..st.strIndex + |w|] == w
    ensures var ends := WordEnds(p, str, st.patIndex + |w|, st.strIndex + |w|);
            t == st.(state := if ends then 20 else 5, consecutive := st.consecutive + |w| - 1,
                     patIndex := st.patIndex + |w|, strIndex := st.strIndex + |w|,
                     score := st.score + Row(st.consecutive, |w| - 1) + if ends then 20 else 0)
    ensures Inv(p, str, t) && Scan(p, str, t) == Scan(p, str, st)
  {
    hide Inv, Spells, StartsWord, WordEnds, Row, Word, LettersAhead, Weighed, SameLetter, Rise, Scan;
    AtLeastTwo(w);
    WordBegins(p, w, str, st);
    WordAhead(p, w, str, st.patIndex, st.strIndex, 1);
    RowIs(st.consecutive, |w| - 1);
    var t0 := FirstHit(p, str, st);
    t := HitRun(p, str, t0, |w| - 1);
  }

  lemma AtLeastTwo(w: Text)
    requires Word(w)
    ensures |w| >= 2
  {
  }

  /** A word of the pattern that turns up inside a word of the string, behind misses. */
  lemma InnerWord(p: Text, w: Text, str: Text, st: St) returns (t: St)
    requires Inv(p, str, st) && st.state in {-3, -1} && st.strIndex < |str| && !StartsWord(str, st.strIndex)
    requires st.patIndex + |w| == |p| && st.strIndex + |w| <= |str| && Word(w)
    requires Spells(p[st.patIndex..st.patIndex + |w|], w) && str[st.strIndex..st.strIndex + |w|] == w
    ensures t.patIndex == |p| && t.strIndex == st.strIndex + |w|
    ensures t.score == st.score + WordWorth(st.consecutive, |w|, false)
    ensures Inv(p, str, t) && Scan(p, str, t) == Scan(p, str, st)
  {
    hide Inv, Spells, StartsWord, Row, Word, LettersAhead, WordEnds, Weighed, SameLetter, Rise, Scan;
    AtLeastTwo(w);
    WordBegins(p, w, str, st);
    WordAhead(p, w, str, st.patIndex, st.strIndex, 1);
    var t0 := FirstHit(p, str, st);
    NextLetter(p, str, t0, |w| - 1);
    var t1 := SecondHit(p, str, t0);
    if |w| == 2 {
      t := t1;
    } else {
      WordAhead(p, w, str, st.patIndex, st.strIndex, 2);
      RowIs(st.consecutive, |w| - 2);
      AtItsEnd(p, str, st.strIndex + |w|);
      t := HitRun(p, str, t1, |w| - 2);
    }
  }

  lemma NextLetter(p: Text, str: Text, st: St, m: nat)
    requires m > 0 && LettersAhead(p, str, st.patIndex, st.strIndex, m)
    ensures Weighed(p, str, st) && SameLetter(p[st.patIndex], str[st.strIndex])
  {
  }

  lemma AtItsEnd(p: Text, str: Text, j: nat)
    requires j <= |str|
    ensures WordEnds(p, str, |p|, j)
  {
  }

  /** The last word, wherever it turns up. */
  lemma LastWord(p: Text, w: Text, str: Text, st: St) returns (t: St)
    requires Inv(p, str, st) && st.state in {-100, -3, -1, 20} && st.strIndex < |str|
    requires st.state == 20 ==> StartsWord(str, st.strIndex)
    requires st.patIndex + |w| == |p| && st.strIndex + |w| <= |str| && Word(w)
    requires Spells(p[st.patIndex..st.patIndex + |w|], w) && str[st.strIndex..st.strIndex + |w|] == w
    ensures var starts := st.state == -100 || StartsWord(str, st.strIndex);
            t.score == st.score + WordWorth(st.consecutive, |w|, starts)
    ensures t.patIndex == |p| && t.strIndex == st.strIndex + |w|
    ensures Inv(p, str, t) && Scan(p, str, st) == t
  {
    hide Inv, Spells, StartsWord, Row, Word;
    if st.state == -100 || StartsWord(str, st.strIndex) {
      t := FirstWord(p, w, str, st);
    } else {
      t := InnerWord(p, w, str, st);
    }
  }

  /** 10 more if no letter follows where the pattern is used up; below zero counts as zero, and zero is no match. */
  function Reported(score: int, tail: Text): Verdict {
    var total := score + if tail == [] || !SomeLetter(tail[0]) then 10 else 0;
    Verdict(if total > 0 then total else 0, total > 0)
  }

  lemma ReportedIs(p: Text, front: Text, tail: Text, t: St)
    requires Inv(p, front + tail, t) && Scan(p, front + tail, INITIAL) == t
    requires t.patIndex == |p| && t.strIndex == |front|
    ensures Match(p, front + tail) == Reported(t.score, tail)
  {
    hide Inv, Scan;
    if tail != [] {
      assert (front + tail)[|front|] == tail[0];
    }
  }

  lemma MissesLie(p: Text, i: nat, g: Text, str: Text, j: nat)
    requires i < |p| && SomeLetter(p[i]) && Misses(g, p[i]) && j + |g| <= |str| && str[j..j + |g|] == g
    ensures MissesAhead(p, str, i, j, |g|)
  {
    forall k | j <= k < j + |g|
      ensures str[k] !in {32, 46, 58, 95} && !SameLetter(p[i], str[k])
    {
      assert str[k] == g[k - j];
    }
  }

  lemma SpelledLetter(p: Text, w: Text, k: nat)
    requires Spells(p, w) && k < |w| && SomeLetter(w[k])
    ensures SomeLetter(p[k])
  {
  }

  /** One word behind anything that does not match: what it is worth, less 3 for up to four units before it. */
  lemma WordFound(p: Text, w: Text, junk: Text, tail: Text)
    requires Word(w) && Spells(p, w) && Misses(junk, p[0])
    ensures var starts := StartsWord(junk + w + tail, |junk|);
            Match(p, junk + w + tail) == Reported(WordWorth(0, |w|, starts) - 3 * Least(|junk|, 4), tail)
  {
    hide Inv, Scan, Spells, StartsWord, Match, Misses;
    var str := junk + w + tail;
    InitialInv(p, str);
    SpelledLetter(p, w, 0);
    SpelledSize(p, w);
    assert str[0..0 + |junk|] == junk && str[|junk|..|junk| + |w|] == w && p[0..0 + |w|] == p;
    MissesLie(p, 0, junk, str, 0);
    var t0 := LeadingMisses(p, str, INITIAL, |junk|);
    StartAtZero(str);
    var t := LastWord(p, w, str, t0);
    ReportedIs(p, junk + w, tail, t);
  }

  lemma SpelledSize(p: Text, w: Text)
    requires Spells(p, w)
    ensures |p| == |w|
  {
  }

  lemma StartAtZero(str: Text)
    requires str != []
    ensures StartsWord(str, 0)
  {
  }

  /** The first colon starts the pattern anew, at half of what was reached so far, rounded down. */
  lemma ColonStep(p: Text, str: Text, st: St) returns (t: St)
    requires Inv(p, str, st) && Running(p, str, st) && p[st.patIndex] !in {32, 46, 95}
    requires str[st.strIndex] == 58 && !st.header
    ensures t == St(-100, true, st.leading, st.consecutive, st.strIndex + 1, 0, st.score / 2)
    ensures Inv(p, str, t) && Scan(p, str, t) == Scan(p, str, st)
  {
    hide Bound;
    StepKeepsInv(p, str, st);
    t := Step(p, str, st);
  }

  lemma WordBehindColon(p: Text, w: Text, head: Text, tail: Text)
    requires Word(w) && Spells(p, w) && Misses(head, p[0])
    ensures Match(p, head + [58] + w + tail) == Reported(WordWorth(0, |w|, true) + -3 * Least(|head|, 4) / 2, tail)
  {
    hide Inv, Scan, Spells, StartsWord, Match, Misses;
    var str := head + [58] + w + tail;
    InitialInv(p, str);
    SpelledLetter(p, w, 0);
    SpelledSize(p, w);
    assert str[0..0 + |head|] == head && str[|head|] == 58 && p[0..0 + |w|] == p;
    assert str[|head| + 1..|head| + 1 + |w|] == w;
    MissesLie(p, 0, head, str, 0);
    var t0 := LeadingMisses(p, str, INITIAL, |head|);
    var t1 := ColonStep(p, str, t0);
    var t := LastWord(p, w, str, t1);
    ReportedIs(p, head + [58] + w, tail, t);
  }

  /** What the first of two words is worth, with what separates them in the string. */
  function FirstWorth(n: nat, gap: Text): int
    requires n >= 2 && gap != []
  {
    Row(0, n - 1) + (if SomeLetter(gap[0]) then 0 else 20) - |gap|
  }

  /**
     Two words that are apart in the string. Unless a letter follows the first
     one, it is worth 20 more, and the hits of the second one count on from it.
     */
  lemma TwoWordsFound(p: Text, u: Text, w: Text, gap: Text, tail: Text)
    requires Word(u) && Word(w) && Spells(p, u + w) && gap != [] && Misses(gap, p[|u|])
    ensures var starts := StartsWord(u + gap + w + tail, |u + gap|);
            var c := if SomeLetter(gap[0]) then 0 else |u| - 1;
            Match(p, u + gap + w + tail) == Reported(FirstWorth(|u|, gap) + WordWorth(c, |w|, starts), tail)
  {
    hide Inv, Scan, Spells, StartsWord, Match, Misses, WordWorth, Row;
    var str, n := u + gap + w + tail, |u|;
    InitialInv(p, str);
    SpelledSize(p, u + w);
    SpelledParts(p, u, w);
    assert str[0..0 + n] == u && str[n..n + |gap|] == gap && str[n + |gap|..n + |gap| + |w|] == w;
    var t0 := FirstWord(p, u, str, INITIAL);
    MissesLie(p, n, gap, str, n);
    GapEnds(p, gap, str, n);
    var t1 := LaterMisses(p, str, t0, |gap|);
    var t := LastWord(p, w, str, t1);
    ReportedIs(p, u + gap + w, tail, t);
  }

  lemma SpelledParts(p: Text, u: Text, w: Text)
    requires Word(u) && Word(w) && Spells(p, u + w)
    ensures |p| == |u| + |w| && Spells(p[0..0 + |u|], u) && Spells(p[|u|..|u| + |w|], w) && SomeLetter(p[|u|])
  {
    forall k | 0 <= k < |u| ensures SameLetter(p[0..0 + |u|][k], u[k]) {
      assert (u + w)[k] == u[k];
    }
    forall k | 0 <= k < |w| ensures SameLetter(p[|u|..|u| + |w|][k], w[k]) {
      assert (u + w)[|u| + k] == w[k];
    }
    assert SameLetter(p[|u|..|u| + |w|][0], w[0]);
  }

  lemma GapEnds(p: Text, gap: Text, str: Text, j: nat)
    requires j < |p| && gap != [] && j + |gap| <= |str| && str[j..j + |gap|] == gap && Misses(gap, p[j])
    ensures WordEnds(p, str, j, j) <==> !SomeLetter(gap[0])
  {
    assert str[j] == gap[0];
  }

  /** A blank, a dot or an underscore is passed over, in the pattern first. */
  lemma PassedOver(p: Text, str: Text, st: St) returns (t: St)
    requires Inv(p, str, st) && Running(p, str, st)
    requires p[st.patIndex] in {32, 46, 95} || str[st.strIndex] in {32, 46, 95}
    ensures t == if p[st.patIndex] in {32, 46, 95} then st.(patIndex := st.patIndex + 1)
                 else st.(strIndex := st.strIndex + 1)
    ensures Inv(p, str, t) && Scan(p, str, t) == Scan(p, str, st)
  {
    hide Bound, Scan;
    StepKeepsInv(p, str, st);
    t := Step(p, str, st);
    ScanStep(p, str, st);
  }

  lemma ScanStep(p: Text, str: Text, st: St)
    requires Inv(p, str, st) && Running(p, str, st)
    ensures st.state < 0 && st.state != START_MATCH ==> st.strIndex > 0
    ensures Inv(p, str, Step(p, str, st)) && Scan(p, str, Step(p, str, st)) == Scan(p, str, st)
  {
    hide Inv, Step;
    InvState(p, str, st);
    StepKeepsInv(p, str, st);
  }

  predicate Small(w: Text) { forall k | 0 <= k < |w| :: 97 <= w[k] <= 122 }

  lemma {:induction false} SmallAhead(p: Text, i: nat, n: nat)
    requires i + n <= |p| && forall k | i <= k < i + n :: 97 <= p[k] <= 122
    ensures LettersAhead(p, p, i, i, n)
    decreases n
  {
    if n > 0 {
      SmallAhead(p, i + 1, n - 1);
    }
  }

  lemma BothLie(u: Text, sep: Unit, w: Text)
    requires |u| >= 2 && w != [] && Small(u) && Small(w)
    ensures var p := u + [sep] + w;
            && LettersAhead(p, p, 0, 0, |u|) && LettersAhead(p, p, 1, 1, |u| - 1)
            && LettersAhead(p, p, |u| + 1, |u| + 1, |w|) && p[|u|] == sep && !WordEnds(p, p, |u|, |u|)
            && 97 <= p[|u| + 1] <= 122
  {
    hide LettersAhead;
    var p := u + [sep] + w;
    SmallAhead(p, 0, |u|);
    SmallAhead(p, 1, |u| - 1);
    SmallAhead(p, |u| + 1, |w|);
  }

  /** Two small words and what may stand between them, against themselves: one row of hits, as if nothing did. */
  lemma PhraseFound(u: Text, sep: Unit, w: Text)
    requires |u| >= 2 && w != [] && Small(u) && Small(w) && sep in {32, 46, 95}
    ensures var p := u + [sep] + w;
            Match(p, p) == Reported(Row(0, |u| - 1) + Row(|u| - 1, |w|) + 20, [])
  {
    hide Inv, Scan, Small, Row, LettersAhead, Weighed, SameLetter, Rise, Match;
    var p := u + [sep] + w;
    InitialInv(p, p);
    BothLie(u, sep, w);
    NextLetter(p, p, INITIAL, |u|);
    var t0 := FirstHit(p, p, INITIAL);
    RowIs(0, |u| - 1);
    var t1 := HitRun(p, p, t0, |u| - 1);
    var t2 := PassedOver(p, p, t1);
    var t3 := PassedOver(p, p, t2);
    RowIs(|u| - 1, |w|);
    var t := HitRun(p, p, t3, |w|);
    assert p + [] == p;
    EndOfScan(p, p, t);
    ReportedIs(p, p, [], t);
  }

  lemma EndOfScan(p: Text, str: Text, t: St)
    requires Inv(p, str, t) && !Running(p, str, t)
    ensures Scan(p, str, t) == t
  {
  }

  /** A small word against itself. */
  lemma SelfMatch(w: Text)
    requires |w| >= 2 && Small(w)
    ensures Match(w, w) == Verdict(5 * |w| * (|w| - 1) / 2 + 30, true)
  {
    hide Match, Row;
    WordFound(w, w, [], []);
    assert [] + w + [] == w;
    SelfRow(|w|);
  }

  lemma SelfRow(n: nat)
    requires n >= 2
    ensures Row(0, n - 1) == 5 * n * (n - 1) / 2 >= 0
  {
    assert 5 * (n - 1) * (2 * 0 + (n - 1) + 1) == 5 * n * (n - 1);
  }

  // ----- strings that have nothing of the pattern

  /** No colon, and no letter or other unit of the pattern but for those that are passed over. */
  predicate Unrelated(p: Text, str: Text) {
    && (exists i | 0 <= i < |p| :: p[i] !in {32, 46, 95})
    && (forall j | 0 <= j < |str| ::
          str[j] != 58 && (str[j] in {32, 46, 95} || forall i | 0 <= i < |p| :: !SameLetter(p[i], str[j])))
  }

  lemma {:induction false} UnrelatedFrom(p: Text, str: Text, st: St, i: nat)
    requires Inv(p, str, st) && Unrelated(p, str) && i < |p| && p[i] !in {32, 46, 95}
    requires st.patIndex <= i && st.score <= 0
    ensures var t := Scan(p, str, st); t.patIndex <= i && t.score <= 0
    decreases |str| - st.strIndex, |p| - st.patIndex
  {
    hide Inv, Matched, Unrelated;
    if Running(p, str, st) {
      InvState(p, str, st);
      UnrelatedStep(p, str, st, i);
      StepKeepsInv(p, str, st);
      StepDecreases(p, str, st);
      UnrelatedFrom(p, str, Step(p, str, st), i);
    }
  }

  lemma UnrelatedStep(p: Text, str: Text, st: St, i: nat)
    requires Inv(p, str, st) && Unrelated(p, str) && i < |p| && p[i] !in {32, 46, 95}
    requires st.patIndex <= i && st.score <= 0 && Running(p, str, st)
    ensures var t := Step(p, str, st); t.patIndex <= i && t.score <= 0
  {
    hide Matched, Bound;
    SameLetterIff(p[st.patIndex], str[st.strIndex]);
  }

  lemma UnrelatedIsNoMatch(p: Text, str: Text)
    requires Unrelated(p, str)
    ensures Match(p, str) == Verdict(0, false)
  {
    hide Inv, Scan;
    InitialInv(p, str);
    var i :| 0 <= i < |p| && p[i] !in {32, 46, 95};
    UnrelatedFrom(p, str, INITIAL, i);
  }

  // ----- the code, with its checks

  /** `addInt`, `subInt` and `mulInt` raise a defect when the result leaves the 32-bit range. */
  function Checked(x: int): Option<int> {
    if -MAX_INT - 1 <= x <= MAX_INT then Some(x) else None
  }

  predicate Defective(x: int) { Checked(x).None? }

  /** A length up to which no score can overflow; longer strings may be safe as well. */
  const SAFE_LENGTH := 29304

  lemma SafeBound(n: nat)
    requires n <= SAFE_LENGTH
    ensures Bound(n) + 10 <= MAX_INT
  {
    BoundIs(SAFE_LENGTH);
    BoundGrows(n, SAFE_LENGTH);
  }

  /** The transition on equal characters; `None` is an overflow defect. */
  method OnMatch(pattern: Text, str: Text, st: St) returns (r: Option<St>)
    requires Inv(pattern, str, st) && Running(pattern, str, st) && |pattern| <= MAX_INT && |str| <= MAX_INT
    ensures r.Some? ==> r.value == Matched(pattern, str, st).(strIndex := st.strIndex)
    ensures r.None? ==> Bound(st.strIndex + 1) > MAX_INT
  {
    var scoreState, score, count := st.state, st.score, st.consecutive;
    if scoreState == START_MATCH || scoreState == WORD_BOUNDARY_MATCH {
      scoreState := LEADING_CHAR_MATCH;
    } else if scoreState == CHAR_MATCH {
      scoreState := CONSECUTIVE_MATCH;
      if Defective(score + scoreState) { return None; }
      score := score + scoreState;
    } else if scoreState == LEADING_CHAR_MATCH || scoreState == CONSECUTIVE_MATCH {
      count := count + 1;
      scoreState := CONSECUTIVE_MATCH;
      if Defective(5 * count) || Defective(score + 5 * count) { return None; }
      score := score + 5 * count;
      if scoreState == LEADING_CHAR_MATCH {
        score := score + 10;
      }
      var onBoundary := st.patIndex == |pattern| - 1;
      if !onBoundary && st.strIndex < |str| - 1 {
        var nextPatternChar := ToLower(pattern[st.patIndex + 1]);
        var nextStrChar := ToLower(str[st.strIndex + 1]);
        onBoundary := !Lower(nextStrChar) && nextStrChar != nextPatternChar;
      }
      if onBoundary {
        scoreState := WORD_BOUNDARY_MATCH;
        if Defective(score + scoreState) { return None; }
        score := score + scoreState;
      }
    } else if scoreState == CHAR_DIFF || scoreState == LEADING_CHAR_DIFF {
      var isLeadingChar := !Letter(str[st.strIndex - 1]) || (Lower(str[st.strIndex - 1]) && Upper(str[st.strIndex]));
      scoreState := if isLeadingChar then LEADING_CHAR_MATCH else CHAR_MATCH;
    }
    r := Some(st.(state := scoreState, score := score, consecutive := count, patIndex := st.patIndex + 1));
  }

  /** The transition on different characters. */
  method OnMismatch(st: St) returns (r: Option<St>)
    ensures r.Some? ==> r.value == Mismatched(st).(strIndex := st.strIndex)
    ensures r.None? ==> st.score - 3 < -MAX_INT - 1 || st.leading >= MAX_INT || st.score > MAX_INT
  {
    var t := st;
    if st.state == START_MATCH {
      if Defective(st.score - 3) { return None; }
      t := t.(state := LEADING_CHAR_DIFF, score := t.score + LEADING_CHAR_DIFF);
    } else if st.state == CONSECUTIVE_MATCH {
      if Defective(st.score - 1) { return None; }
      t := t.(state := CHAR_DIFF, score := t.score + CHAR_DIFF, consecutive := 0);
    } else if st.state == LEADING_CHAR_DIFF {
      if st.leading < 3 {
        if Defective(st.score - 3) { return None; }
        t := t.(state := LEADING_CHAR_DIFF, score := t.score + LEADING_CHAR_DIFF);
      }
      if Defective(st.leading + 1) { return None; }
      t := t.(leading := t.leading + 1);
    } else {
      if Defective(st.score - 1) { return None; }
      t := t.(state := CHAR_DIFF, score := t.score + CHAR_DIFF);
    }
    r := Some(t);
  }

  lemma InitialInv(pattern: Text, str: Text)
    ensures Inv(pattern, str, INITIAL)
  {
  }

  /** Within the safe length, neither the next transition nor the final bonus overflows. */
  lemma InvSafe(pattern: Text, str: Text, st: St)
    requires Inv(pattern, str, st) && |str| <= SAFE_LENGTH
    ensures st.strIndex < |str| ==> Bound(st.strIndex + 1) <= MAX_INT
    ensures -MAX_INT + 2 <= st.score <= MAX_INT - 10 && st.leading < MAX_INT
  {
    SafeBound(st.strIndex);
    if st.strIndex < |str| {
      SafeBound(st.strIndex + 1);
    }
  }

  lemma BothAdvance(pattern: Text, str: Text, st: St)
    requires Running(pattern, str, st) && (st.state < 0 && st.state != START_MATCH ==> st.strIndex > 0)
    ensures Matched(pattern, str, st).strIndex == Mismatched(st).strIndex == st.strIndex + 1
  {
  }

  lemma Samples(pattern: Text, str: Text)
    ensures var v := Match(pattern, str); v.score >= 0 && (v.matched <==> v.score > 0)
    ensures var n := |pattern|;
            str == pattern && n >= 2 && Small(pattern)
            ==> Match(pattern, str) == Verdict(5 * n * (n - 1) / 2 + 30, true)
    ensures Unrelated(pattern, str) ==> Match(pattern, str) == Verdict(0, false)
  {
    hide Inv, Scan, Unrelated, FinalScore;
    if str == pattern && |pattern| >= 2 && Small(pattern) {
      SelfMatch(pattern);
    }
    if Unrelated(pattern, str) {
      UnrelatedIsNoMatch(pattern, str);
    }
  }

  /**
     `fuzzyMatch`; `None` is an overflow defect. It always ends, never indexes
     out of range, and raises nothing for strings up to `SAFE_LENGTH`.
     */
  method RunMatch(pattern: Text, str: Text) returns (r: Option<Verdict>)
    requires |pattern| <= MAX_INT && |str| <= MAX_INT
    ensures r.Some? ==> r.value == Match(pattern, str)
    ensures |str| <= SAFE_LENGTH ==> r.Some?
    ensures r.Some? ==> r.value.score >= 0 && (r.value.matched <==> r.value.score > 0)
    ensures var n := |pattern|;
            r.Some? && str == pattern && n >= 2 && Small(pattern)
            ==> r.value == Verdict(5 * n * (n - 1) / 2 + 30, true)
    ensures r.Some? && Unrelated(pattern, str) ==> r.value == Verdict(0, false)
  {
    hide Bound, Matched, Mismatched, OnBoundary, Unrelated;
    var st := INITIAL;
    InitialInv(pattern, str);
    while st.strIndex < |str| && st.patIndex < |pattern|
      invariant Inv(pattern, str, st)
      invariant Scan(pattern, str, st) == Scan(pattern, str, INITIAL)
      decreases |str| - st.strIndex, |pattern| - st.patIndex
    {
      StepKeepsInv(pattern, str, st);
      StepDecreases(pattern, str, st);
      ghost var target := Step(pattern, str, st);
      if |str| <= SAFE_LENGTH {
        InvSafe(pattern, str, st);
      }
      BothAdvance(pattern, str, st);
      var patternChar := ToLower(pattern[st.patIndex]);
      var strChar := ToLower(str[st.strIndex]);
      if Ignored(patternChar) {
        st := st.(patIndex := st.patIndex + 1);
      } else if Ignored(strChar) {
        st := st.(strIndex := st.strIndex + 1);
      } else if !st.header && strChar == COLON {
        st := st.(header := true, state := START_MATCH, score := st.score / 2, patIndex := 0,
                  strIndex := st.strIndex + 1);
      } else {
        var next: Option<St>;
        if strChar == patternChar {
          next := OnMatch(pattern, str, st);
        } else {
          next := OnMismatch(st);
        }
        if next.None? {
          return None;
        }
        st := next.value.(strIndex := st.strIndex + 1);
      }
      assert st == target;
    }
    var score := st.score;
    if |str| <= SAFE_LENGTH {
      InvSafe(pattern, str, st);
    }
    if st.patIndex == |pattern| && (st.strIndex == |str| || !Letter(str[st.strIndex])) {
      if Defective(score + 10) { return None; }
      score := score + 10;
    }
    r := Some(Verdict(if 0 < score then score else 0, 0 < score));
    Samples(pattern, str);
  }
}
