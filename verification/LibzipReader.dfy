/** Reading the data of one entry in pieces, without decompression. */
module ZipReader {
  import opened Basics
  import opened Results
  import opened ZipBytes
  import opened ZipFormat
  import opened ZipDirectory

  /** What does not change while an entry is read: its data region, and its checksum if it is to be compared. */
  datatype Region = Region(file: Data, start: nat, total: U32,
                           checkCrc: bool, crcOrig: U32, crcStep: (U32, Byte) -> U32)

  /** The bytes of the region that the file really has. */
  function Available(g: Region): Data {
    if g.start <= |g.file| then g.file[g.start..Min(g.start + g.total, |g.file|)] else []
  }

  lemma AvailableSlice(g: Region, a: nat, b: nat)
    requires a <= b <= |Available(g)|
    ensures Available(g)[a..b] == if a == b then [] else g.file[g.start + a..g.start + b]
  {
    if a < b {
      Slice(g.file, g.start, |Available(g)|, a, b - a);
    }
  }

  lemma AvailableCrc(g: Region, a: nat, b: nat)
    requires a <= b <= |Available(g)|
    ensures var s := Available(g);
            Crc(g.crcStep, Crc(g.crcStep, 0, s[..a]), s[a..b]) == Crc(g.crcStep, 0, s[..b])
  {
    CrcAppend(g.crcStep, 0, Available(g)[..a], Available(g)[a..b]);
    assert Available(g)[..a] + Available(g)[a..b] == Available(g)[..b];
  }

  lemma WholeCrc(g: Region)
    ensures Crc(g.crcStep, 0, Available(g)[..|Available(g)|]) == Crc(g.crcStep, 0, Available(g))
    ensures |Available(g)| <= g.total
  {
    assert Available(g)[..|Available(g)|] == Available(g);
  }

  predicate Complete(g: Region) { |Available(g)| == g.total }

  predicate CrcWrong(g: Region) { g.checkCrc && Crc(g.crcStep, 0, Available(g)) != g.crcOrig }

  /** How far a reader has come. */
  datatype Progress = Progress(done: nat, eof: bool, error: Option<ZipError>)

  const BEGIN := Progress(0, false, None)

  predicate Within(g: Region, p: Progress) {
    && p.done <= |Available(g)|
    && (p.eof ==> p.done == |Available(g)| && Complete(g))
    && (p.error.Some? ==> p.done == |Available(g)|)
  }

  /** `zip_fread` as a step on the progress made. */
  function ReadStep(g: Region, p: Progress, n: nat): (Progress, Result<Data, ZipError>) {
    var rest := |Available(g)| - p.done;
    if p.error.Some? then (p, Err(p.error.value))
    else if p.eof || n == 0 then (p, Ok([]))
    else if p.done == g.total then
      if CrcWrong(g) then (p.(eof := true, error := Some(CrcError)), Err(CrcError))
      else (p.(eof := true), Ok([]))
    else if rest <= 0 then (p.(error := Some(PrematureEof)), Err(PrematureEof))
    else
      var k := Min(n, rest);
      (p.(done := p.done + k), Ok(Available(g)[p.done..p.done + k]))
  }

  /** The bytes delivered by calls of the given sizes, and the progress after them. */
  function ReadRun(g: Region, p: Progress, sizes: seq<nat>): (Progress, Data)
    decreases |sizes|
  {
    if sizes == [] then (p, [])
    else
      var (q, r) := ReadStep(g, p, sizes[0]);
      var (end, rest) := ReadRun(g, q, sizes[1..]);
      (end, (if r.Ok? then r.value else []) + rest)
  }

  function Sum(sizes: seq<nat>): nat
    decreases |sizes|
  {
    if sizes == [] then 0 else sizes[0] + Sum(sizes[1..])
  }

  lemma StepDelivers(g: Region, p: Progress, n: nat)
    requires Within(g, p)
    ensures var (q, r) := ReadStep(g, p, n);
            var k := Min(n, |Available(g)| - p.done);
            && Within(g, q) && q.done == p.done + k
            && (if r.Ok? then r.value else []) == Available(g)[p.done..p.done + k]
  {
    hide CrcWrong;
  }

  /** Only the sum of the sizes matters for what is delivered. */
  lemma {:induction false} DeliveredBySum(g: Region, p: Progress, sizes: seq<nat>)
    requires Within(g, p)
    ensures var (end, got) := ReadRun(g, p, sizes);
            var to := Min(p.done + Sum(sizes), |Available(g)|);
            Within(g, end) && end.done == to && got == Available(g)[p.done..to]
    decreases |sizes|
  {
    hide ReadStep, Available;
    if sizes != [] {
      var q := ReadStep(g, p, sizes[0]).0;
      StepDelivers(g, p, sizes[0]);
      DeliveredBySum(g, q, sizes[1..]);
      var all, to := Available(g), Min(p.done + Sum(sizes), |Available(g)|);
      assert all[p.done..q.done] + all[q.done..to] == all[p.done..to];
    }
  }

  /** The verdict that a reader of the whole entry ends up with. */
  function FinalError(g: Region): Option<ZipError> {
    if !Complete(g) then Some(PrematureEof) else if CrcWrong(g) then Some(CrcError) else None
  }

  /** Errors and the end of file come at the end only, and are the final ones. */
  predicate Honest(g: Region, p: Progress) {
    && Within(g, p)
    && (p.eof || p.error.Some? ==> p.error == FinalError(g) && (p.eof <==> Complete(g)))
  }

  lemma {:induction false} RunHonest(g: Region, p: Progress, sizes: seq<nat>)
    requires Honest(g, p)
    ensures Honest(g, ReadRun(g, p, sizes).0)
    decreases |sizes|
  {
    if sizes != [] {
      RunHonest(g, ReadStep(g, p, sizes[0]).0, sizes[1..]);
    }
  }

  lemma {:induction false} RunAppend(g: Region, p: Progress, a: seq<nat>, b: seq<nat>)
    ensures var (mid, gotA) := ReadRun(g, p, a);
            var (end, gotB) := ReadRun(g, mid, b);
            ReadRun(g, p, a + b) == (end, gotA + gotB)
    decreases |a|
  {
    hide ReadStep;
    if a == [] {
      assert a + b == b;
      assert [] + ReadRun(g, p, b).1 == ReadRun(g, p, b).1;
    } else {
      assert (a + b)[1..] == a[1..] + b;
      var (q, r) := ReadStep(g, p, a[0]);
      RunAppend(g, q, a[1..], b);
      var first := if r.Ok? then r.value else [];
      var (mid, gotA) := ReadRun(g, q, a[1..]);
      var gotB := ReadRun(g, mid, b).1;
      assert first + (gotA + gotB) == first + gotA + gotB;
    }
  }

  /**
     However an entry is split into reads: once the sizes add up to all there is,
     one more read gives the verdict, and the verdict is the same for every split.
     */
  lemma VerdictBySum(g: Region, sizes: seq<nat>, last: nat)
    requires Sum(sizes) >= |Available(g)| && last > 0
    ensures var (end, got) := ReadRun(g, BEGIN, sizes + [last]);
            && got == Available(g) && end.done == |got| && (end.eof <==> |got| == g.total)
            && end.error == if |got| < g.total then Some(PrematureEof)
                            else if g.checkCrc && Crc(g.crcStep, 0, got) != g.crcOrig then Some(CrcError) else None
  {
    var (mid, got) := ReadRun(g, BEGIN, sizes);
    DeliveredBySum(g, BEGIN, sizes);
    RunHonest(g, BEGIN, sizes);
    RunAppend(g, BEGIN, sizes, [last]);
    assert got == Available(g);
    WholeCrc(g);
    ReadOnce(g, mid, last);
    assert Available(g) + [] == Available(g);
  }

  lemma ReadOnce(g: Region, p: Progress, n: nat)
    ensures var (q, r) := ReadStep(g, p, n);
            ReadRun(g, p, [n]) == (q, if r.Ok? then r.value else [])
  {
    hide ReadStep;
    var (q, r) := ReadStep(g, p, n);
    assert [n][1..] == [];
    assert ReadRun(g, q, []) == (q, []);
    var got := if r.Ok? then r.value else [];
    assert got + [] == got;
  }

  // ----- the reader object

  /** `struct zip_file` for an entry that is not decompressed. */
  class ZipFile {
    const zp: Stream
    const region: Region
    var fpos: nat
    var bytesLeft: nat
    var cbytesLeft: nat
    var crc: U32
    var eof: bool
    var error: Option<ZipError>

    ghost function Done(): int
      reads this
    {
      region.total - cbytesLeft
    }

    ghost predicate Valid()
      reads this, zp
    {
      && zp.bytes == region.file
      && bytesLeft == cbytesLeft <= region.total
      && Done() <= |Available(region)| && fpos == region.start + Done()
      && (region.checkCrc ==> crc == Crc(region.crcStep, 0, Available(region)[..Done()]))
    }

    ghost function View(): Progress
      requires Valid()
      reads this, zp
    {
      Progress(Done(), eof, error)
    }

    /** `zip_fopen_index`, once the offset of the data is known. */
    constructor (zp: Stream, region: Region)
      requires zp.bytes == region.file
      ensures Valid() && View() == BEGIN && this.region == region && this.zp == zp
    {
      this.zp, this.region, this.fpos := zp, region, region.start;
      this.bytesLeft, this.cbytesLeft, this.crc := region.total, region.total, 0;
      this.eof, this.error := false, None;
      new;
      CrcEmpty(region.crcStep, 0);
    }

    /** `_zip_file_fillbuf` */
    method FillBuf(n: nat) returns (r: Option<Data>)
      requires Valid() && error.None? && !eof && n > 0 && cbytesLeft > 0
      modifies this`fpos, this`cbytesLeft, this`error, zp`pos
      ensures zp.bytes == old(zp.bytes)
      ensures var rest := |Available(region)| - old(Done());
              if rest == 0 then
                r.None? && error == Some(PrematureEof) && cbytesLeft == old(cbytesLeft) && fpos == old(fpos)
              else
                && r == Some(Available(region)[old(Done())..old(Done()) + Min(n, rest)])
                && cbytesLeft == old(cbytesLeft) - Min(n, rest)
                && fpos == old(fpos) + Min(n, rest) && error == None
    {
      zp.Seek(fpos);
      var i := if n < cbytesLeft then n else cbytesLeft;
      var got := zp.Read(i);
      ghost var done := Done();
      AvailableSlice(region, done, done + Min(n, |Available(region)| - done));
      if |got| == 0 {
        error := Some(PrematureEof);
        r := None;
      } else {
        fpos := fpos + |got|;
        cbytesLeft := cbytesLeft - |got|;
        r := Some(got);
      }
    }

    /** `zip_fread`: a negative result is `Err`. The two counters stay equal throughout. */
    method Read(n: nat) returns (r: Result<Data, ZipError>)
      requires Valid()
      modifies this, zp`pos
      ensures Valid() && (View(), r) == ReadStep(region, old(View()), n)
    {
      hide Crc, Available;
      if error.Some? {
        return Err(error.value);
      }
      if eof || n == 0 {
        return Ok([]);
      }
      if bytesLeft == 0 {
        eof := true;
        WholeCrc(region);
        if region.checkCrc && crc != region.crcOrig {
          error := Some(CrcError);
          return Err(CrcError);
        }
        return Ok([]);
      }
      ghost var done := Done();
      var got := FillBuf(n);
      if got.None? {
        return Err(PrematureEof);
      }
      if region.checkCrc {
        AvailableCrc(region, done, done + |got.value|);
        crc := Crc(region.crcStep, crc, got.value);
      }
      bytesLeft := bytesLeft - |got.value|;
      r := Ok(got.value);
    }
  }

  /** Where `_zip_file_get_offset` and `zip_fopen_index` put the reader of an entry; `raw` asks for compressed data. */
  function RegionOf(clock: Clock, step: (U32, Byte) -> U32, file: Data, d: Dirent, raw: bool): Option<Region> {
    var p := Parse(clock, file, d.offset, |file|, true, ReadError);
    if p.Err? || (d.compMethod != 0 && !raw) || ToU32(p.value.next) == 0 then None
    else Some(Region(file, ToU32(p.value.next), d.csize, d.compMethod == 0, d.crc, step))
  }

  /** `zip_fopen_index` for an entry whose data is delivered as it is stored. */
  method OpenEntry(clock: Clock, step: (U32, Byte) -> U32, zp: Stream, d: Dirent, raw: bool)
    returns (r: Option<ZipFile>)
    modifies zp`pos
    ensures r.Some? <==> RegionOf(clock, step, zp.bytes, d, raw).Some?
    ensures r.Some? ==> fresh(r.value) && r.value.zp == zp
    ensures r.Some? ==> r.value.region == RegionOf(clock, step, zp.bytes, d, raw).value
    ensures r.Some? ==> r.value.Valid() && r.value.View() == BEGIN
  {
    hide Parse;
    if d.compMethod != 0 && !raw {
      return None;
    }
    zp.Seek(d.offset);
    var local := ReadDirent(clock, zp, true);
    if local.Err? {
      return None;
    }
    var fpos := ToU32(d.offset + LENTRYSIZE + |local.value.name| + |local.value.extra|);
    LocalEnd(clock, zp.bytes, d.offset);
    if fpos == 0 {
      return None;
    }
    var zf := new ZipFile(zp, Region(zp.bytes, fpos, d.csize, d.compMethod == 0, d.crc, step));
    r := Some(zf);
  }

  lemma LocalEnd(clock: Clock, s: Data, at: nat)
    ensures var p := Parse(clock, s, at, |s|, true, ReadError);
            p.Ok? ==> p.value.next == at + LENTRYSIZE + |p.value.d.name| + |p.value.d.extra|
  {
  }

  // ----- a slice of an entry as a data source

  /** The bytes from `off` on, at most `len` of them if a length is given. */
  function SliceOf(g: Region, off: nat, len: Option<nat>): Data
    requires off <= |Available(g)|
  {
    var rest := Available(g)[off..];
    if len.Some? && len.value < |rest| then rest[..len.value] else rest
  }

  /** Skipping has come back, with or without an error, or is still at it with the counter at `n`. */
  datatype Skipped = Returned(p: Progress, ok: bool) | Skipping(p: Progress, n: int)

  /** The counter of the loop is an `int`: it turns negative at 2^31. */
  function Wrap(n: int): int { ToI32(ToU32(n)) }

  /** The loop that skips up to offset `off`, with the counter at `n`, for at most `turns` turns. */
  function Skip(g: Region, p: Progress, n: int, off: nat, turns: nat): Skipped
    decreases turns
  {
    if n >= off then Returned(p, true)
    else if turns == 0 then Skipping(p, n)
    else
      var (q, r) := ReadStep(g, p, Min(BUFSIZE, off - n));
      if r.Err? then Returned(q, false) else Skip(g, q, Wrap(n + |r.value|), off, turns - 1)
  }

  /** `struct read_zip`; a length of -1 is `None`. */
  class SliceReader {
    const zf: ZipFile
    const off: nat
    var len: Option<nat>

    constructor (zf: ZipFile, off: nat, len: Option<nat>)
      ensures this.zf == zf && this.off == off && this.len == len
    {
      this.zf, this.off, this.len := zf, off, len;
    }

    /** `ZIP_SOURCE_OPEN`: skip `off` bytes, as far as that gets in `turns` turns of the loop; `None`: not done. */
    method Open(turns: nat) returns (r: Option<bool>)
      requires zf.Valid() && zf.View() == BEGIN
      modifies zf, zf.zp`pos
      ensures zf.Valid()
      ensures match Skip(zf.region, BEGIN, 0, off, turns)
              case Returned(p, ok) => zf.View() == p && r == Some(ok)
              case Skipping(p, _) => zf.View() == p && r == None
    {
      hide ReadStep;
      var n: int, left: nat := 0, turns;
      while n < off
        invariant zf.Valid() && left <= turns
        invariant Skip(zf.region, BEGIN, 0, off, turns) == Skip(zf.region, zf.View(), n, off, left)
        decreases left
      {
        if left == 0 {
          return None;
        }
        var i := if off - n > BUFSIZE then BUFSIZE else off - n;
        var got := zf.Read(i);
        if got.Err? {
          return Some(false);
        }
        n := Wrap(n + |got.value|);
        left := left - 1;
      }
      r := Some(true);
    }

    /** `ZIP_SOURCE_READ` */
    method Read(n: nat) returns (r: Result<Data, ZipError>)
      requires zf.Valid()
      modifies zf, zf.zp`pos, this`len
      ensures zf.Valid()
      ensures (SliceState(zf.View(), len), r) == SliceStep(zf.region, SliceState(old(zf.View()), old(len)), n)
    {
      var m := n;
      if len.Some? {
        m := if n > len.value then len.value else n;
      }
      r := zf.Read(m);
      if r.Ok? && len.Some? {
        len := Some(len.value - |r.value|);
      }
    }
  }

  datatype SliceState = SliceState(p: Progress, len: Option<nat>)

  function SliceStep(g: Region, s: SliceState, n: nat): (SliceState, Result<Data, ZipError>) {
    var m := if s.len.Some? && n > s.len.value then s.len.value else n;
    var (p, r) := ReadStep(g, s.p, m);
    var len := if r.Ok? && s.len.Some? then Some(if |r.value| <= s.len.value then s.len.value - |r.value| else 0)
               else s.len;
    (SliceState(p, len), r)
  }

  function SliceRun(g: Region, s: SliceState, sizes: seq<nat>): Data
    decreases |sizes|
  {
    if sizes == [] then []
    else
      var (t, r) := SliceStep(g, s, sizes[0]);
      (if r.Ok? then r.value else []) + SliceRun(g, t, sizes[1..])
  }

  lemma SliceStepDelivers(g: Region, s: SliceState, n: nat)
    requires Within(g, s.p)
    ensures var slice := SliceOf(g, s.p.done, s.len);
            var k := Min(n, |slice|);
            var (t, r) := SliceStep(g, s, n);
            && Within(g, t.p)
            && (if r.Ok? then r.value else []) == slice[..k]
            && SliceOf(g, t.p.done, t.len) == slice[k..]
  {
    hide SliceStep, Available, SliceOf;
    var all, from := Available(g), s.p.done;
    var slice := SliceOf(g, from, s.len);
    var k := Min(n, |slice|);
    SliceBounds(g, from, s.len);
    SliceStepCounts(g, s, n, k);
    var t := SliceStep(g, s, n).0;
    SliceBounds(g, t.p.done, t.len);
    var to := from + |slice|;
    assert all[from..to][..k] == all[from..from + k] && all[from..to][k..] == all[from + k..to];
  }

  lemma SliceStepCounts(g: Region, s: SliceState, n: nat, k: nat)
    requires Within(g, s.p)
    requires var left := |Available(g)| - s.p.done;
             k == Min(n, if s.len.Some? && s.len.value < left then s.len.value else left)
    ensures var (t, r) := SliceStep(g, s, n);
            && Within(g, t.p) && t.p.done == s.p.done + k
            && (if r.Ok? then r.value else []) == Available(g)[s.p.done..s.p.done + k]
            && t.len == if s.len.Some? then Some(s.len.value - k) else None
  {
    hide ReadStep, Available;
    StepDelivers(g, s.p, if s.len.Some? && n > s.len.value then s.len.value else n);
  }

  lemma SliceBounds(g: Region, off: nat, len: Option<nat>)
    requires off <= |Available(g)|
    ensures var left := |Available(g)| - off;
            var n := if len.Some? && len.value < left then len.value else left;
            SliceOf(g, off, len) == Available(g)[off..off + n] && |SliceOf(g, off, len)| == n
  {
    hide Available;
  }

  /** Reads of any sizes deliver exactly the front of the slice, as far as the sizes reach. */
  lemma {:induction false} SliceDelivered(g: Region, s: SliceState, sizes: seq<nat>)
    requires Within(g, s.p)
    ensures var slice := SliceOf(g, s.p.done, s.len);
            SliceRun(g, s, sizes) == slice[..Min(Sum(sizes), |slice|)]
    decreases |sizes|
  {
    hide SliceStep, SliceOf, Available;
    if sizes != [] {
      var slice := SliceOf(g, s.p.done, s.len);
      var n, more := sizes[0], Sum(sizes[1..]);
      SliceStepDelivers(g, s, n);
      SliceDelivered(g, SliceStep(g, s, n).0, sizes[1..]);
      assert Sum(sizes) == n + more;
      FrontOfFront(slice, n, more);
    }
  }

  lemma FrontOfFront(slice: Data, n: nat, more: nat)
    ensures var rest := slice[Min(n, |slice|)..];
            slice[..Min(n, |slice|)] + rest[..Min(more, |rest|)] == slice[..Min(n + more, |slice|)]
  {
  }

  // ----- when skipping comes to an end

  /** The state of a reader that has delivered `n` bytes and met no end. */
  function At(n: nat): Progress { Progress(n, false, None) }

  /** The first offset that the counter cannot reach. */
  const INT_END := 0x8000_0000

  /** Where skipping ends up: at the offset, or at the end of what is there. */
  function Reached(g: Region, off: nat): nat {
    if off < INT_END then Min(off, |Available(g)|) else |Available(g)|
  }

  lemma WrapFacts(d: nat, k: nat)
    ensures Wrap(d) < INT_END && (d < INT_END ==> Wrap(d) == d)
    ensures Wrap(Wrap(d) + k) == Wrap(d + k)
  {
    var m := 0x1_0000_0000;
    var q, r := d / m, d % m;
    assert d == q * m + r;
    assert (d + k) % m == (r + k) % m == (r - m + k) % m;
  }

  /** What one read does that is asked for something. */
  lemma StepAt(g: Region, d: nat, n: nat)
    requires d <= |Available(g)| && n > 0
    ensures var (q, r) := ReadStep(g, At(d), n);
            if d < |Available(g)| then
              var k := Min(n, |Available(g)| - d);
              q == At(d + k) && r.Ok? && |r.value| == k
            else if Complete(g) && !CrcWrong(g) then q == Progress(d, true, None) && r == Ok([])
            else r.Err?
  {
    hide Available, CrcWrong;
    WholeCrc(g);
  }

  /** Once `d` bytes are behind it, the loop comes to where it ends up. */
  lemma {:induction false} SkipAdvances(g: Region, d: nat, off: nat) returns (turns: nat)
    requires d <= Reached(g, off)
    ensures forall more: nat ::
              Skip(g, At(d), Wrap(d), off, turns + more)
              == Skip(g, At(Reached(g, off)), Wrap(Reached(g, off)), off, more)
    decreases Reached(g, off) - d
  {
    hide Available, ReadStep, CrcWrong, Wrap;
    if d == Reached(g, off) {
      turns := 0;
    } else {
      WrapFacts(d, 0);
      var n := Min(BUFSIZE, off - Wrap(d));
      var k := Min(n, |Available(g)| - d);
      StepAt(g, d, n);
      WrapFacts(d, k);
      var rest := SkipAdvances(g, d + k, off);
      turns := rest + 1;
    }
  }

  /**
     The loop can end in one way only: at the offset, or with an error if the bytes
     do not reach so far or the counter does not.
     */
  lemma {:induction false} SkipOutcome(g: Region, d: nat, off: nat, turns: nat)
    requires d <= Reached(g, off)
    ensures match Skip(g, At(d), Wrap(d), off, turns)
            case Returned(p, ok) => (ok <==> off <= |Available(g)| && off < INT_END) && (ok ==> p == At(off))
            case Skipping(_, _) => true
    decreases turns
  {
    hide Available, ReadStep, CrcWrong, Wrap;
    WholeCrc(g);
    WrapFacts(d, 0);
    if Wrap(d) < off && turns > 0 {
      StepAt(g, d, Min(BUFSIZE, off - Wrap(d)));
      var (q, r) := ReadStep(g, At(d), Min(BUFSIZE, off - Wrap(d)));
      if d < |Available(g)| {
        WrapFacts(d, |r.value|);
        SkipOutcome(g, q.done, off, turns - 1);
      } else if r.Ok? {
        SkipStuck(g, q, off, turns - 1);
      }
    }
  }

  /**
     In a complete entry with a right checksum, skipping to an offset that is
     behind the entry, or that the counter cannot reach, goes on for ever: at the
     end every read succeeds with nothing.
     */
  lemma {:induction false} SkipStuck(g: Region, p: Progress, off: nat, turns: nat)
    requires Complete(g) && !CrcWrong(g) && (off > g.total || off >= INT_END)
    requires p.done <= g.total && p.error.None? && (p.eof ==> p.done == g.total)
    ensures Skip(g, p, Wrap(p.done), off, turns).Skipping?
    decreases turns
  {
    hide CrcWrong, Wrap;
    WrapFacts(p.done, 0);
    if turns > 0 {
      var (q, r) := ReadStep(g, p, Min(BUFSIZE, off - Wrap(p.done)));
      WrapFacts(p.done, |r.value|);
      SkipStuck(g, q, off, turns - 1);
    }
  }

  /**
     Opening a slice comes back exactly if its offset is not behind the entry and
     is below 2 GB, or the entry is cut short, or its checksum is wrong. Then it
     succeeds exactly if the bytes before the offset are all there and the offset
     is below 2 GB.
     */
  lemma OpenReturnsIff(g: Region, off: nat)
    ensures (exists turns :: Skip(g, BEGIN, 0, off, turns).Returned?)
       <==> (off <= g.total && off < INT_END) || !Complete(g) || CrcWrong(g)
    ensures forall turns | Skip(g, BEGIN, 0, off, turns).Returned? ::
              var s := Skip(g, BEGIN, 0, off, turns);
              (s.ok <==> off <= |Available(g)| && off < INT_END) && (s.ok ==> s.p == At(off))
  {
    hide Skip, CrcWrong;
    assert Wrap(0) == 0;
    forall turns | Skip(g, BEGIN, 0, off, turns).Returned?
      ensures var s := Skip(g, BEGIN, 0, off, turns);
              (s.ok <==> off <= |Available(g)| && off < INT_END) && (s.ok ==> s.p == At(off))
    {
      SkipOutcome(g, 0, off, turns);
    }
    if (off <= g.total && off < INT_END) || !Complete(g) || CrcWrong(g) {
      var turns := SkipAdvances(g, 0, off);
      SkipEnds(g, off);
      assert Skip(g, BEGIN, 0, off, turns + 1).Returned?;
    } else {
      forall turns: nat ensures !Skip(g, BEGIN, 0, off, turns).Returned? {
        SkipStuck(g, BEGIN, off, turns);
      }
    }
  }

  lemma SkipEnds(g: Region, off: nat)
    requires (off <= g.total && off < INT_END) || !Complete(g) || CrcWrong(g)
    ensures Skip(g, At(Reached(g, off)), Wrap(Reached(g, off)), off, 1).Returned?
  {
    hide Available, ReadStep, CrcWrong, Wrap;
    WholeCrc(g);
    var d := Reached(g, off);
    WrapFacts(d, 0);
    if Wrap(d) < off {
      StepAt(g, d, Min(BUFSIZE, off - Wrap(d)));
    }
  }

  // ----- files on which it does not

  /** The entry of a file that holds `data`, stored and named "a". */
  function StoredEntry(step: (U32, Byte) -> U32, data: Data): Dirent
    requires |data| < 0x1_0000_0000
  {
    FRESH_DIRENT.(name := [97], crc := Crc(step, 0, data), csize := |data|, usize := |data|)
  }

  /**
     Opened the way a slice is, every such entry makes skipping go on for ever from
     each offset behind its end, as from 1 in an empty entry, and from each offset
     of 2 GB and more, as from 2^31 in an entry of 3 GB.
     */
  lemma OpenNeverReturns(clock: Clock, step: (U32, Byte) -> U32, data: Data, off: nat)
    requires |data| < 0xF000_0000 && (off > |data| || off >= INT_END)
    ensures var d := StoredEntry(step, data);
            var g := RegionOf(clock, step, Encode(clock, d, true) + data, d, false);
            && g.Some? && Available(g.value) == data && g.value.total == |data| && g.value.checkCrc
            && forall turns :: Skip(g.value, BEGIN, 0, off, turns).Skipping?
  {
    hide Encode, Parse, Crc, Skip;
    var d := StoredEntry(step, data);
    var head := Encode(clock, d, true);
    var file := head + data;
    assert file[0..0 + EncodedSize(d, true)] == head;
    EncodeParse(clock, d, true, file, 0, |file|, ReadError);
    var g := RegionOf(clock, step, file, d, false).value;
    assert g.start == |head| && file[|head|..|head| + |data|] == data;
    assert Wrap(0) == 0;
    forall turns: nat ensures Skip(g, BEGIN, 0, off, turns).Skipping? {
      SkipStuck(g, BEGIN, off, turns);
    }
  }
}
