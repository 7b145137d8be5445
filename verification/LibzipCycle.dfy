/** What closing an archive does to the data that readers get. */
module ZipCycle {
  import opened Basics
  import opened Results
  import opened ZipBytes
  import opened ZipFormat
  import opened ZipDirectory
  import opened ZipFind
  import opened ZipArchive
  import opened ZipClose
  import opened ZipReopen
  import opened ZipReader

  /** Two regions that no reader can tell apart. */
  ghost predicate Alike(a: Region, b: Region) {
    && Available(a) == Available(b) && a.total == b.total
    && a.checkCrc == b.checkCrc && a.crcOrig == b.crcOrig && a.crcStep == b.crcStep
  }

  lemma {:induction false} AlikeRuns(a: Region, b: Region, p: Progress, sizes: seq<nat>)
    requires Alike(a, b)
    ensures ReadRun(a, p, sizes) == ReadRun(b, p, sizes)
    decreases |sizes|
  {
    if sizes != [] {
      AlikeRuns(a, b, ReadStep(a, p, sizes[0]).0, sizes[1..]);
    }
  }

  /**
     An entry that survived without new data reads in the written file as it read
     before, however the reads are cut, errors and checksum verdict included.
     */
  lemma CopiedEntryReadsAlike(env: Env, z: Zip, file: Data, out: Data, i: nat, d: Dirent, data: Data,
                              start: nat, end: nat, raw: bool, sizes: seq<nat>)
    requires EntryKept(env, z, file, i, d, data) && !DataChanged(z.entries[i])
    requires RegionOk(env.clock, out, d, start, end, data)
    requires |file| < 0x1_0000_0000 && |out| < 0x1_0000_0000
    ensures var old_ := RegionOf(env.clock, env.crcStep, file, z.cdir.value.entries[i], raw);
            var new_ := RegionOf(env.clock, env.crcStep, out, d, raw);
            && (old_.Some? <==> new_.Some?)
            && (old_.Some? ==> ReadRun(old_.value, BEGIN, sizes) == ReadRun(new_.value, BEGIN, sizes))
  {
    hide Parse, HeaderComp, Available;
    var orig := z.cdir.value.entries[i];
    RegionHoldsData(env, file, orig, data, raw);
    RegionHoldsData(env, out, d, data, raw);
    var old_, new_ := RegionOf(env.clock, env.crcStep, file, orig, raw), RegionOf(env.clock, env.crcStep, out, d, raw);
    if old_.Some? && new_.Some? {
      AlikeRuns(old_.value, new_.value, BEGIN, sizes);
    }
  }

  /** A header that can be read, with `data` behind it. */
  lemma RegionHoldsData(env: Env, file: Data, d: Dirent, data: Data, raw: bool)
    requires |file| < 0x1_0000_0000
    requires var p := Parse(env.clock, file, d.offset, |file|, true, ReadError);
             p.Ok? && p.value.next + d.csize <= |file| && data == file[p.value.next..p.value.next + d.csize]
    ensures var g := RegionOf(env.clock, env.crcStep, file, d, raw);
            && (g.Some? <==> d.compMethod == 0 || raw)
            && (g.Some? ==> Available(g.value) == data && g.value.total == d.csize && Complete(g.value))
  {
    hide Parse;
  }

  /**
     Reading an entry of the written file as it is stored delivers the data that
     was written for it, however the reads are cut. One more read ends without an
     error unless the entry is a stored one with another checksum: the checksum of
     deflated data is that of what it stands for, and is not compared.
     */
  lemma WrittenEntryReads(env: Env, out: Data, d: Dirent, data: Data, start: nat, end: nat,
                          raw: bool, sizes: seq<nat>, last: nat)
    requires RegionOk(env.clock, out, d, start, end, data) && |out| < 0x1_0000_0000
    requires Sum(sizes) >= |data| && last > 0
    ensures var g := RegionOf(env.clock, env.crcStep, out, d, raw);
            && (g.Some? <==> raw || d.compMethod == 0)
            && (g.Some? ==>
                  && ReadRun(g.value, BEGIN, sizes).1 == data
                  && ReadRun(g.value, BEGIN, sizes + [last])
                     == (Progress(|data|, true, if d.compMethod == 0 && Crc(env.crcStep, 0, data) != d.crc
                                                then Some(CrcError) else None),
                         data))
  {
    hide Parse, HeaderComp, Available, Crc, ReadRun, Sum;
    RegionHoldsData(env, out, d, data, raw);
    var g := RegionOf(env.clock, env.crcStep, out, d, raw);
    if g.Some? {
      DeliveredBySum(g.value, BEGIN, sizes);
      VerdictBySum(g.value, sizes, last);
      assert g.value.checkCrc == (d.compMethod == 0) && g.value.crcOrig == d.crc;
    }
  }

  /** Closing `z` writes a file that the format has room for. */
  predicate ClosesAs(env: Env, z: Zip, file: Data, out: Data) {
    && Closable(z) && NamesFit(z)
    && CloseResult(env, z, file) == Written(out)
    && |out| < 0x1_0000_0000 && |Survivors(z)| < 0x1_0000
  }

  /** Edits ask for nothing more than names, and that no torrentzip is asked for. */
  lemma EditedClosable(z: Zip, ops: seq<Op>)
    requires Opened(z) && Named(Run(z, ops)) && TORRENT !in Run(z, ops).chFlags
    ensures Closable(Run(z, ops))
  {
    hide Inv, Distinct;
    OpenedDistinct(z);
    RunKeepsInv(z, ops);
  }

  /**
     The whole cycle: open a consistent archive, edit it in any way that leaves
     every survivor a name, close it and open the result. What was written is
     well written, the check accepts it exactly if its last entry ends below 2 GB,
     and opening finds it exactly if it is the best of the candidates.
     */
  lemma EditCloseReopen(env: Env, z: Zip, ops: seq<Op>, file: Data, out: Data, checkCons: bool,
                        r: Result<Cdir, ZipError>)
    requires Opened(z) && ConsistentOrNew(env.clock, z, file) && ClosesAs(env, Run(z, ops), file, out)
    requires Verdict(Scorer(env.clock, out), FileCandidates(env.clock, out, checkCons), checkCons, r)
    ensures exists cd, starts, data ::
              && WellWritten(env, Run(z, ops), file, out, cd, starts, data)
              && ReadableFromEnd(env.clock, out, cd)
              && (Score(env.clock, out, cd) >= 0 <==> Reach(Last(cd.entries)) < 0x8000_0000)
              && Reopens(env.clock, out, cd, checkCons, r)
  {
    hide Closable, NamesFit, CloseResult, ReadableFromEnd, Verdict, FileCandidates, Survivors, Reopens, Opened,
         ConsistentOrNew, Run, Score, Reach, EntryKept, LocalKept, RegionOk, ArchiveComment;
    SameDirectory(env.clock, z, ops, file);
    var cd, starts, data := WrittenIsWell(env, Run(z, ops), file, out);
    WrittenFileReopens(env, Run(z, ops), file, out, cd, starts, data, checkCons, r);
  }

  lemma SameDirectory(clock: Clock, z: Zip, ops: seq<Op>, file: Data)
    requires ConsistentOrNew(clock, z, file)
    ensures ConsistentOrNew(clock, Run(z, ops), file)
  {
    hide Score, Run;
    RunKeepsOriginals(z, ops);
  }

  // ----- an archive that is written and then not accepted

  const NEW_ARCHIVE := Zip(None, [], None, {}, {})

  /** A source that offers `data` as compressed already. */
  function Deflated(data: Data): Source {
    Source(Some(Stat(0, 0, 0, CM_DEFLATE)), true, data, false, true)
  }

  function OneEntry(data: Data): Zip {
    Apply(NEW_ARCHIVE, AddOp([97], Deflated(data))).z
  }

  lemma OneEntryIs(data: Data)
    ensures var z := OneEntry(data);
            && Opened(NEW_ARCHIVE) && z.entries == [Entry(Added, Some(Deflated(data)), Some([97]), None)]
            && z.cdir == None && z.chComment == None && z.flags == {} && z.chFlags == {}
            && Closable(z) && NamesFit(z) && Survivors(z) == [0]
  {
    var z0 := WithNewEntry(NEW_ARCHIVE);
    assert Locate(z0, [97], 0) == -1;
    var z := OneEntry(data);
    assert z.entries == [Entry(Added, Some(Deflated(data)), Some([97]), None)];
    assert Name(z, 0) == Some([97]) && EntryOk(z, 0);
    assert FileList(z.entries, 0) == [] && FileList(z.entries, 1) == [0];
  }

  lemma OneEntryCloses(env: Env, data: Data) returns (out: Data)
    requires |data| < 0xF000_0000
    ensures ClosesAs(env, OneEntry(data), [], out)
  {
    hide Image, OneEntry, Closable, NamesFit, Survivors, CloseResult;
    var z := OneEntry(data);
    OneEntryIs(data);
    var m := NewMember(env, z, 0).value;
    out := Image(env.clock, [m], []);
    OneMemberSize(env.clock, m);
    assert m.local.name == m.central.name == [97] && m.local.extra == m.central.extra == m.central.comment == [];
    assert |out| == LENTRYSIZE + 1 + |data| + CDENTRYSIZE + 1 + EOCDLEN;
    assert ArchiveComment(z) == [];
    assert EntryTouched(z.entries[0]);
    ClosesTo(env, z, [], m);
  }

  lemma OneMemberSize(clock: Clock, m: Member)
    ensures |Image(clock, [m], [])|
         == EncodedSize(m.local, true) + |m.data| + EncodedSize(m.central, false) + EOCDLEN
  {
    hide Encode, EncodeEocd;
    assert [m][..0] == [];
    assert Body(clock, [m]) == Body(clock, []) + MemberBytes(clock, m) && Body(clock, []) == [];
    var es := Centrals(clock, [m]);
    assert es == [m.central.(offset := 0)];
    assert EncodeEntries(clock, es, 0) == Encode(clock, es[0], false) + EncodeEntries(clock, es, 1);
    assert EncodeEntries(clock, es, 1) == [];
    assert EncodedSize(es[0], false) == EncodedSize(m.central, false);
  }

  lemma MembersOfOne(env: Env, z: Zip, file: Data, i: nat)
    requires Writable(z, i) && MemberOf(env, z, file, i).Ok?
    ensures MembersOf(env, z, file, [i]) == Ok([MemberOf(env, z, file, i).value])
  {
    hide MemberOf, Writable;
    var list, m := [i], MemberOf(env, z, file, i).value;
    assert list[..|list| - 1] == [] && MembersOf(env, z, file, []) == Ok([]);
    assert list[|list| - 1] == i && [] + [m] == [m];
  }

  lemma ClosesTo(env: Env, z: Zip, file: Data, m: Member)
    requires Closable(z) && IsChanged(z) && Survivors(z) == [0] && Writable(z, 0) && MemberOf(env, z, file, 0) == Ok(m)
    ensures CloseResult(env, z, file) == Written(Image(env.clock, [m], ArchiveComment(z)))
  {
    hide Inv, Named, IsChanged, Writable, MemberOf, MembersOf, Image, ArchiveComment;
    ListWritable(z, |z.entries|);
    MembersOfOne(env, z, file, 0);
  }

  /** An entry of 2 GB and more, in whatever place, makes the check refuse the file that was written. */
  lemma LargeEntryRejected(env: Env, z: Zip, file: Data, out: Data, cd: Cdir, starts: seq<nat>, data: seq<Data>, j: nat)
    requires WellWritten(env, z, file, out, cd, starts, data)
    requires |out| < 0x1_0000_0000 && j < |data| && |data[j]| >= 0x8000_0000
    ensures Score(env.clock, out, cd) < 0
  {
    hide Score, Reach, EntryKept, LocalKept, ArchiveComment, Survivors, RegionOk;
    var last := |data| - 1;
    RegionReach(env.clock, out, cd.entries[last], starts[last], starts[last + 1], data[last]);
    RegionReach(env.clock, out, cd.entries[j], starts[j], starts[j + 1], data[j]);
    if j < last { RegionsGrow(env.clock, out, cd, starts, data, j + 1, last); }
  }

  lemma RegionReach(clock: Clock, out: Data, d: Dirent, start: nat, end: nat, data: Data)
    requires RegionOk(clock, out, d, start, end, data) && |out| < 0x1_0000_0000
    ensures start + |data| <= Reach(d) <= end
  {
    hide Parse;
    LocalEnd(clock, out, d.offset);
  }

  lemma {:induction false} RegionsGrow(clock: Clock, out: Data, cd: Cdir, starts: seq<nat>, data: seq<Data>,
                                       i: nat, j: nat)
    requires |cd.entries| == |data| == |starts| - 1 && i <= j <= |data| && |out| < 0x1_0000_0000
    requires forall k | 0 <= k < |data| :: RegionOk(clock, out, cd.entries[k], starts[k], starts[k + 1], data[k])
    ensures starts[i] <= starts[j]
    decreases j - i
  {
    hide RegionOk, Reach;
    if i < j {
      RegionReach(clock, out, cd.entries[i], starts[i], starts[i + 1], data[i]);
      RegionsGrow(clock, out, cd, starts, data, i + 1, j);
    }
  }

  /** So a new archive with one such entry is written without an error, and its own consistency check refuses it. */
  lemma LargeArchiveRejected(env: Env, data: Data)
    requires 0x8000_0000 <= |data| < 0xF000_0000
    ensures exists out, cd, starts, ds ::
              && ClosesAs(env, OneEntry(data), [], out)
              && WellWritten(env, OneEntry(data), [], out, cd, starts, ds)
              && Score(env.clock, out, cd) < 0
  {
    hide Score, Reach, RegionOk, LocalKept, ArchiveComment, CloseResult;
    OneEntryIs(data);
    var out := OneEntryCloses(env, data);
    var cd, starts, ds := WrittenIsWell(env, OneEntry(data), [], out);
    assert EntryKept(env, OneEntry(data), [], Survivors(OneEntry(data))[0], cd.entries[0], ds[0]);
    LargeEntryRejected(env, OneEntry(data), [], out, cd, starts, ds, 0);
  }
}
