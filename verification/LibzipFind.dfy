/** Finding the central directory from the end of an archive file. */
module ZipFind {
  import opened Basics
  import opened Results
  import opened ZipBytes
  import opened ZipFormat
  import opened ZipDirectory

  predicate OccursAt(buf: Data, p: nat, pat: Data) {
    p + |pat| <= |buf| && buf[p..p + |pat|] == pat
  }

  lemma OccursSplit(buf: Data, p: nat, pat: Data)
    requires pat != [] && p + |pat| <= |buf|
    ensures OccursAt(buf, p, pat) <==> buf[p] == pat[0] && buf[p + 1..p + |pat|] == pat[1..]
  {
    var here := buf[p..p + |pat|];
    assert here == [buf[p]] + buf[p + 1..p + |pat|];
    assert pat == [pat[0]] + pat[1..];
  }

  /** `memchr(buf + from, c, n)`, as an index of `buf`. */
  method MemChr(buf: Data, from: nat, c: Byte, n: nat) returns (r: Option<nat>)
    requires from + n <= |buf|
    ensures r.Some? ==> from <= r.value < from + n && buf[r.value] == c
    ensures r.Some? ==> forall i | from <= i < r.value :: buf[i] != c
    ensures r.None? ==> forall i | from <= i < from + n :: buf[i] != c
  {
    for i := from to from + n
      invariant forall j | from <= j < i :: buf[j] != c
    {
      if buf[i] == c {
        return Some(i);
      }
    }
    r := None;
  }

  /**
     `_zip_memmem(buf + from, bigLen, pat, |pat|)`: the first occurrence that
     lies within the `bigLen` bytes, and none exactly if there is none.
     */
  method MemMem(buf: Data, from: nat, bigLen: int, pat: Data) returns (r: Option<nat>)
    requires from + bigLen <= |buf| && pat != []
    ensures r.Some? ==> from <= r.value <= from + bigLen - |pat| && OccursAt(buf, r.value, pat)
    ensures r.Some? ==> forall p | from <= p < r.value :: !OccursAt(buf, p, pat)
    ensures r.None? ==> forall p | from <= p <= from + bigLen - |pat| :: !OccursAt(buf, p, pat)
  {
    if bigLen < |pat| {
      return None;
    }
    var last := from + bigLen - |pat|;
    var p := from - 1;
    while true
      invariant from - 1 <= p <= last
      invariant forall q | from <= q <= p :: !OccursAt(buf, q, pat)
      decreases last - p
    {
      var hit := MemChr(buf, p + 1, pat[0], last - p);
      forall q | p < q <= last ensures OccursAt(buf, q, pat) ==> buf[q] == pat[0] {
        OccursSplit(buf, q, pat);
      }
      if hit.None? {
        return None;
      }
      p := hit.value;
      OccursSplit(buf, p, pat);
      if buf[p + 1..p + |pat|] == pat[1..] {
        return Some(p);
      }
    }
  }

  /** The directories that can be read at the end records from position `p` on. */
  function Candidates(clock: Clock, file: Data, buf: Data, checkCons: bool, p: nat): seq<Cdir>
    requires p <= |buf|
    decreases |buf| - p
  {
    if p + EOCDLEN > |buf| then []
    else
      var rest := Candidates(clock, file, buf, checkCons, p + 1);
      if OccursAt(buf, p, EOCD_MAGIC) then
        match ParseCdir(clock, file, buf, p, checkCons)
        case Ok(cd) => [cd] + rest
        case Err(_) => rest
      else rest
  }

  lemma {:induction false} NoCandidates(clock: Clock, file: Data, buf: Data, checkCons: bool, p: nat, q: nat)
    requires p <= q <= |buf| && forall i | p <= i < q && i + EOCDLEN <= |buf| :: !OccursAt(buf, i, EOCD_MAGIC)
    ensures Candidates(clock, file, buf, checkCons, p) == Candidates(clock, file, buf, checkCons, q)
    decreases q - p
  {
    hide ParseCdir;
    if p < q && p + EOCDLEN <= |buf| {
      NoCandidates(clock, file, buf, checkCons, p + 1, q);
    }
  }

  lemma NoRoom(clock: Clock, file: Data, buf: Data, checkCons: bool, seen: seq<Cdir>)
    ensures seen + Candidates(clock, file, buf, checkCons, |buf|) == seen
  {
  }

  lemma CandidateAt(clock: Clock, file: Data, buf: Data, checkCons: bool, p: nat, seen: seq<Cdir>)
    requires p + EOCDLEN <= |buf| && OccursAt(buf, p, EOCD_MAGIC)
    ensures var rest := Candidates(clock, file, buf, checkCons, p + 1);
            seen + Candidates(clock, file, buf, checkCons, p)
            == match ParseCdir(clock, file, buf, p, checkCons) {
                 case Ok(cd) => seen + [cd] + rest
                 case Err(_) => seen + rest
               }
  {
    hide ParseCdir, OccursAt;
    var rest := Candidates(clock, file, buf, checkCons, p + 1);
    match ParseCdir(clock, file, buf, p, checkCons) {
      case Ok(cd) => assert seen + ([cd] + rest) == seen + [cd] + rest;
      case Err(_) =>
    }
  }

  lemma {:induction false} CandidateFound(clock: Clock, file: Data, buf: Data, checkCons: bool, p: nat, at: nat,
                                          cd: Cdir)
    requires p <= at && at + EOCDLEN <= |buf| && OccursAt(buf, at, EOCD_MAGIC)
    requires ParseCdir(clock, file, buf, at, checkCons) == Ok(cd)
    ensures cd in Candidates(clock, file, buf, checkCons, p)
    decreases at - p
  {
    hide ParseCdir, OccursAt;
    if p < at {
      CandidateFound(clock, file, buf, checkCons, p + 1, at, cd);
    }
  }

  /** The error of the last end record from position `p` on that leads to no directory, or `e` if there is none. */
  function LastError(clock: Clock, file: Data, buf: Data, checkCons: bool, p: nat, e: ZipError): ZipError
    requires p <= |buf|
    decreases |buf| - p
  {
    if p + EOCDLEN > |buf| then e
    else if OccursAt(buf, p, EOCD_MAGIC) then
      match ParseCdir(clock, file, buf, p, checkCons)
      case Ok(_) => LastError(clock, file, buf, checkCons, p + 1, e)
      case Err(later) => LastError(clock, file, buf, checkCons, p + 1, later)
    else LastError(clock, file, buf, checkCons, p + 1, e)
  }

  lemma {:induction false} NoErrorSkipped(clock: Clock, file: Data, buf: Data, checkCons: bool, p: nat, q: nat,
                                          e: ZipError)
    requires p <= q <= |buf| && forall i | p <= i < q && i + EOCDLEN <= |buf| :: !OccursAt(buf, i, EOCD_MAGIC)
    ensures LastError(clock, file, buf, checkCons, p, e) == LastError(clock, file, buf, checkCons, q, e)
    decreases q - p
  {
    hide ParseCdir, OccursAt;
    if p < q && p + EOCDLEN <= |buf| {
      NoErrorSkipped(clock, file, buf, checkCons, p + 1, q, e);
    }
  }

  lemma ErrorAt(clock: Clock, file: Data, buf: Data, checkCons: bool, p: nat, e: ZipError)
    requires p + EOCDLEN <= |buf| && OccursAt(buf, p, EOCD_MAGIC)
    ensures var r := ParseCdir(clock, file, buf, p, checkCons);
            LastError(clock, file, buf, checkCons, p, e)
            == LastError(clock, file, buf, checkCons, p + 1, if r.Err? then r.error else e)
  {
    hide ParseCdir, OccursAt;
  }

  lemma NothingBehind(clock: Clock, file: Data, buf: Data, checkCons: bool, e: ZipError)
    ensures LastError(clock, file, buf, checkCons, |buf|, e) == e
  {
  }

  /** The earliest of the directories with the greatest score. */
  predicate EarliestBest(score: Cdir -> int, cds: seq<Cdir>, k: nat) {
    && k < |cds|
    && (forall j | 0 <= j < |cds| :: score(cds[j]) <= score(cds[k]))
    && (forall j | 0 <= j < k :: score(cds[j]) < score(cds[k]))
  }

  function Scorer(clock: Clock, file: Data): Cdir -> int {
    cd => Score(clock, file, cd)
  }

  /** What the loop of `_zip_find_central_dir` keeps while `seen` are the directories read so far. */
  ghost predicate Chosen(score: Cdir -> int, seen: seq<Cdir>, checkCons: bool, cdir: Option<Cdir>, best: int) {
    && (seen == [] ==> cdir == None && best == -1)
    && (|seen| == 1 ==> cdir == Some(seen[0]) && best == if checkCons then score(seen[0]) else 0)
    && (|seen| > 1 ==> exists k | 0 <= k < |seen| ::
          EarliestBest(score, seen, k) && cdir == Some(seen[k]) && best == score(seen[k]))
  }

  lemma ChosenCases(score: Cdir -> int, seen: seq<Cdir>, cd: Cdir, checkCons: bool, cdir: Option<Cdir>, best: int)
    ensures Chosen(score, [], checkCons, None, -1)
    ensures Chosen(score, [cd], checkCons, Some(cd), if checkCons then score(cd) else 0)
    ensures Chosen(score, seen, checkCons, cdir, best) ==> (cdir.Some? <==> seen != []) && (best >= 0 ==> cdir.Some?)
  {
  }

  lemma NextChosen(score: Cdir -> int, seen: seq<Cdir>, cd: Cdir, checkCons: bool, cdir: Cdir, best: int)
    requires seen != [] && Chosen(score, seen, checkCons, Some(cdir), best)
    ensures var best' := if best <= 0 then score(cdir) else best;
            if best' < score(cd) then Chosen(score, seen + [cd], checkCons, Some(cd), score(cd))
            else Chosen(score, seen + [cd], checkCons, Some(cdir), best')
  {
    var k := 0;
    if |seen| > 1 {
      k :| 0 <= k < |seen| && EarliestBest(score, seen, k) && cdir == seen[k] && best == score(seen[k]);
    }
    assert EarliestBest(score, seen, k);
    var all := seen + [cd];
    if score(seen[k]) < score(cd) {
      assert EarliestBest(score, all, |seen|);
    } else {
      assert EarliestBest(score, all, k);
    }
  }

  /** What `_zip_find_central_dir` makes of the candidates. */
  ghost predicate Verdict(score: Cdir -> int, cds: seq<Cdir>, checkCons: bool, r: Result<Cdir, ZipError>) {
    && (|cds| == 0 ==> r.Err?)
    && (|cds| == 1 ==> if checkCons && score(cds[0]) < 0 then r.Err? else r == Ok(cds[0]))
    && (|cds| > 1 ==> exists k | 0 <= k < |cds| ::
          EarliestBest(score, cds, k) && if score(cds[k]) < 0 then r.Err? else r == Ok(cds[k]))
  }

  /** `cd` is what the choice falls on. */
  ghost predicate Best(score: Cdir -> int, cds: seq<Cdir>, cd: Cdir) {
    exists k | 0 <= k < |cds| :: cds[k] == cd && EarliestBest(score, cds, k)
  }

  lemma VerdictPicks(score: Cdir -> int, cds: seq<Cdir>, checkCons: bool, r: Result<Cdir, ZipError>, cd: Cdir)
    requires Verdict(score, cds, checkCons, r) && cd in cds
    ensures r == Ok(cd) <==> Best(score, cds, cd) && ((|cds| == 1 && !checkCons) || score(cd) >= 0)
  {
    if |cds| == 1 {
      assert EarliestBest(score, cds, 0);
    } else {
      var k :| 0 <= k < |cds| && EarliestBest(score, cds, k) && if score(cds[k]) < 0 then r.Err? else r == Ok(cds[k]);
      if j :| 0 <= j < |cds| && cds[j] == cd && EarliestBest(score, cds, j) {
        assert j == k;
      }
    }
  }

  lemma BestIfOutscores(score: Cdir -> int, cds: seq<Cdir>, cd: Cdir)
    requires cd in cds && forall other | other in cds && other != cd :: score(other) < score(cd)
    ensures Best(score, cds, cd)
  {
    var k := 0;
    while cds[k] != cd
      invariant 0 <= k < |cds| && forall j | 0 <= j < k :: cds[j] != cd
      invariant cd in cds[k..]
      decreases |cds| - k
    {
      k := k + 1;
    }
    assert EarliestBest(score, cds, k);
  }

  lemma FinalVerdict(score: Cdir -> int, seen: seq<Cdir>, checkCons: bool, cdir: Option<Cdir>, best: int,
                     r: Result<Cdir, ZipError>)
    requires Chosen(score, seen, checkCons, cdir, best)
    requires if best < 0 then r.Err? else cdir.Some? && r == Ok(cdir.value)
    ensures Verdict(score, seen, checkCons, r)
  {
  }

  /** The next candidate, as in lines 3382-3400. */
  method Consider(clock: Clock, fp: Stream, checkCons: bool, cdir: Option<Cdir>, best: int, cd: Cdir,
                  ghost seen: seq<Cdir>)
    returns (cdir': Option<Cdir>, best': int)
    requires Chosen(Scorer(clock, fp.bytes), seen, checkCons, cdir, best)
    modifies fp`pos
    ensures Chosen(Scorer(clock, fp.bytes), seen + [cd], checkCons, cdir', best')
  {
    hide Score, EarliestBest, Chosen;
    ghost var score := Scorer(clock, fp.bytes);
    ChosenCases(score, seen, cd, checkCons, cdir, best);
    cdir', best' := cdir, best;
    if cdir.Some? {
      NextChosen(score, seen, cd, checkCons, cdir.value, best);
      if best <= 0 {
        best' := CheckCons(clock, fp, cdir.value);
      }
      var a := CheckCons(clock, fp, cd);
      if best' < a {
        cdir', best' := Some(cd), a;
      }
    } else {
      assert seen + [cd] == [cd];
      cdir' := Some(cd);
      if checkCons {
        best' := CheckCons(clock, fp, cd);
      } else {
        best' := 0;
      }
    }
  }

  /**
     `_zip_find_central_dir`. Every end record that can be read in the last
     bytes of the file is a candidate. A single candidate is taken as it is,
     unless consistency was asked for; of several, the earliest one of the
     greatest score is taken, and the call fails exactly if that score is
     negative. The score of the first candidate is computed only when a second
     one turns up, and again whenever it is not positive.
     */
  method FindCentralDir(clock: Clock, fp: Stream, checkCons: bool) returns (r: Result<Cdir, ZipError>)
    requires |fp.bytes| > 0
    modifies fp`pos
    ensures Verdict(Scorer(clock, fp.bytes), FileCandidates(clock, fp.bytes, checkCons), checkCons, r)
    ensures FileCandidates(clock, fp.bytes, checkCons) == []
            ==> r == Err(LastError(clock, fp.bytes, FileTail(fp.bytes), checkCons, 0, NoZip))
  {
    hide ParseCdir, Score, EarliestBest, Verdict, OccursAt, Chosen, Candidates, LastError;
    var len := |fp.bytes|;
    fp.Seek(len - Min(len, CDBUFSIZE));
    var buf := fp.Read(CDBUFSIZE);
    assert buf == fp.bytes[len - Min(len, CDBUFSIZE)..];
    ghost var score := Scorer(clock, fp.bytes);
    ghost var seen: seq<Cdir> := [];
    var best := -1;
    var cdir: Option<Cdir> := None;
    var zerr := NoZip;
    ghost var any := Cdir([], 0, 0, []);
    ChosenCases(score, [], any, checkCons, None, -1);
    var from := 0;
    while true
      invariant from <= |buf|
      invariant seen + Candidates(clock, fp.bytes, buf, checkCons, from) == FileCandidates(clock, fp.bytes, checkCons)
      invariant Chosen(score, seen, checkCons, cdir, best)
      invariant LastError(clock, fp.bytes, buf, checkCons, from, zerr)
             == LastError(clock, fp.bytes, buf, checkCons, 0, NoZip)
      invariant fp.bytes == old(fp.bytes)
      decreases |buf| - from
    {
      var m := MemMem(buf, from, |buf| - from - 18, EOCD_MAGIC);
      if m.None? {
        NoCandidates(clock, fp.bytes, buf, checkCons, from, |buf|);
        NoErrorSkipped(clock, fp.bytes, buf, checkCons, from, |buf|, zerr);
        NothingBehind(clock, fp.bytes, buf, checkCons, zerr);
        NoRoom(clock, fp.bytes, buf, checkCons, seen);
        break;
      }
      NoCandidates(clock, fp.bytes, buf, checkCons, from, m.value);
      NoErrorSkipped(clock, fp.bytes, buf, checkCons, from, m.value, zerr);
      ErrorAt(clock, fp.bytes, buf, checkCons, m.value, zerr);
      CandidateAt(clock, fp.bytes, buf, checkCons, m.value, seen);
      from := m.value + 1;
      var new_ := ReadCdir(clock, fp, buf, m.value, checkCons);
      if new_.Err? {
        zerr := new_.error;
        continue;
      }
      cdir, best := Consider(clock, fp, checkCons, cdir, best, new_.value, seen);
      seen := seen + [new_.value];
    }
    ChosenCases(score, seen, any, checkCons, cdir, best);
    if best < 0 {
      r := Err(zerr);
    } else {
      r := Ok(cdir.value);
    }
    FinalVerdict(score, seen, checkCons, cdir, best, r);
  }

  /** The part of a file that is searched for end records. */
  function FileTail(file: Data): Data { file[|file| - Min(|file|, CDBUFSIZE)..] }

  function FileCandidates(clock: Clock, file: Data, checkCons: bool): seq<Cdir> {
    Candidates(clock, file, FileTail(file), checkCons, 0)
  }

  /** An end record begins at `p`, with room for the whole of it. */
  predicate EndRecord(buf: Data, p: nat) {
    p + 22 <= |buf| && buf[p..p + 4] == [0x50, 0x4B, 5, 6]
  }

  /** A directory can be read at the end record that begins at `p`; or it is one, and none can. */
  predicate GoodEnd(clock: Clock, file: Data, buf: Data, checkCons: bool, p: nat) {
    EndRecord(buf, p) && ParseCdir(clock, file, buf, p, checkCons).Ok?
  }

  predicate BadEnd(clock: Clock, file: Data, buf: Data, checkCons: bool, p: nat) {
    EndRecord(buf, p) && ParseCdir(clock, file, buf, p, checkCons).Err?
  }

  lemma CandidatesNext(clock: Clock, file: Data, buf: Data, checkCons: bool, p: nat)
    requires p <= |buf|
    ensures if p + EOCDLEN > |buf| then
              && Candidates(clock, file, buf, checkCons, p) == []
              && forall q | p <= q :: !GoodEnd(clock, file, buf, checkCons, q)
            else
              Candidates(clock, file, buf, checkCons, p)
              == (if GoodEnd(clock, file, buf, checkCons, p)
                  then [ParseCdir(clock, file, buf, p, checkCons).value] else [])
                 + Candidates(clock, file, buf, checkCons, p + 1)
  {
    hide ParseCdir;
  }

  /** The candidates are the directories that can be read at the end records, in the order of the file. */
  lemma {:induction false} CandidatesAre(clock: Clock, file: Data, buf: Data, checkCons: bool, p: nat)
    returns (at: seq<nat>)
    requires p <= |buf|
    ensures var cds := Candidates(clock, file, buf, checkCons, p);
            && |at| == |cds| && (forall i, j | 0 <= i < j < |at| :: at[i] < at[j])
            && forall i | 0 <= i < |at| ::
                 at[i] <= |buf| && ParseCdir(clock, file, buf, at[i], checkCons) == Ok(cds[i])
    ensures forall q: nat :: q in at <==> p <= q && GoodEnd(clock, file, buf, checkCons, q)
    decreases |buf| - p
  {
    hide ParseCdir, GoodEnd, Candidates;
    at := [];
    CandidatesNext(clock, file, buf, checkCons, p);
    if p + EOCDLEN <= |buf| {
      var rest := CandidatesAre(clock, file, buf, checkCons, p + 1);
      forall i | 0 <= i < |rest| ensures p < rest[i] { assert rest[i] in rest; }
      if GoodEnd(clock, file, buf, checkCons, p) {
        GoodIsOk(clock, file, buf, checkCons, p);
        at := [p] + rest;
      } else {
        at := rest;
      }
      forall q: nat ensures q in at <==> p <= q && GoodEnd(clock, file, buf, checkCons, q) {
        assert q in at <==> q in rest || (q == p && GoodEnd(clock, file, buf, checkCons, p));
      }
    }
  }

  lemma GoodIsOk(clock: Clock, file: Data, buf: Data, checkCons: bool, p: nat)
    requires GoodEnd(clock, file, buf, checkCons, p)
    ensures p <= |buf| && ParseCdir(clock, file, buf, p, checkCons).Ok?
  {
  }

  lemma LastErrorNext(clock: Clock, file: Data, buf: Data, checkCons: bool, p: nat, e: ZipError)
    requires p <= |buf|
    ensures if p + EOCDLEN > |buf| then
              && LastError(clock, file, buf, checkCons, p, e) == e
              && forall q | p <= q :: !BadEnd(clock, file, buf, checkCons, q)
            else
              LastError(clock, file, buf, checkCons, p, e)
              == LastError(clock, file, buf, checkCons, p + 1,
                           if BadEnd(clock, file, buf, checkCons, p)
                           then ParseCdir(clock, file, buf, p, checkCons).error else e)
  {
    hide ParseCdir;
  }

  /** The error that is reported is that of the last end record that cannot be read, or no archive if there is none. */
  lemma {:induction false} LastErrorIs(clock: Clock, file: Data, buf: Data, checkCons: bool, p: nat, e: ZipError)
    returns (q: nat)
    requires p <= |buf|
    ensures var error := LastError(clock, file, buf, checkCons, p, e);
            if exists k | p <= k <= |buf| :: BadEnd(clock, file, buf, checkCons, k) then
              && p <= q <= |buf| && BadEnd(clock, file, buf, checkCons, q)
              && (forall k | q < k <= |buf| :: !BadEnd(clock, file, buf, checkCons, k))
              && ParseCdir(clock, file, buf, q, checkCons) == Err(error)
            else error == e
    decreases |buf| - p
  {
    hide ParseCdir, BadEnd, LastError;
    q := p;
    LastErrorNext(clock, file, buf, checkCons, p, e);
    if p + EOCDLEN <= |buf| {
      var bad := BadEnd(clock, file, buf, checkCons, p);
      if bad { BadIsErr(clock, file, buf, checkCons, p); }
      var next := if bad then ParseCdir(clock, file, buf, p, checkCons).error else e;
      var later := LastErrorIs(clock, file, buf, checkCons, p + 1, next);
      if exists k | p + 1 <= k <= |buf| :: BadEnd(clock, file, buf, checkCons, k) { q := later; }
    }
  }

  lemma BadIsErr(clock: Clock, file: Data, buf: Data, checkCons: bool, p: nat)
    requires BadEnd(clock, file, buf, checkCons, p)
    ensures p <= |buf| && ParseCdir(clock, file, buf, p, checkCons).Err?
  {
  }

  /** The search goes through the last 65558 bytes of the file: room for the longest comment and an end record. */
  lemma TailIs(file: Data)
    ensures |FileTail(file)| == (if |file| < 65558 then |file| else 65558)
    ensures FileTail(file) == file[|file| - |FileTail(file)|..]
  {
  }
}
