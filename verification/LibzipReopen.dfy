/** A file written by `zip_close` opens again, is consistent, and holds exactly the surviving entries. */
module ZipReopen {
  import opened Basics
  import opened Results
  import opened ZipBytes
  import opened ZipFormat
  import opened ZipDirectory
  import opened ZipFind
  import opened ZipArchive
  import opened ZipEdits
  import opened ZipClose

  // ----- where the members lie

  function Start(clock: Clock, ms: seq<Member>, j: nat): nat
    requires j <= |ms|
  {
    |Body(clock, ms[..j])|
  }

  /** Member `j` lies at its start, the next one follows at once, and its central header says so. */
  lemma {:induction false} MemberAt(clock: Clock, ms: seq<Member>, j: nat)
    requires j < |ms|
    ensures Start(clock, ms, j + 1) == Start(clock, ms, j) + |MemberBytes(clock, ms[j])| <= |Body(clock, ms)|
    ensures Body(clock, ms)[Start(clock, ms, j)..Start(clock, ms, j + 1)] == MemberBytes(clock, ms[j])
    ensures Centrals(clock, ms)[j] == ms[j].central.(offset := ToU32(Start(clock, ms, j)))
    decreases |ms|
  {
    hide MemberBytes;
    var last := |ms| - 1;
    var rest := ms[..last];
    assert ms[..j + 1][..j] == ms[..j] && ms[..j + 1][j] == ms[j];
    assert Body(clock, ms[..j + 1]) == Body(clock, ms[..j]) + MemberBytes(clock, ms[j]);
    if j == last {
      assert ms[..j + 1] == ms;
    } else {
      assert rest[..j] == ms[..j] && rest[..j + 1] == ms[..j + 1] && rest[j] == ms[j];
      MemberAt(clock, rest, j);
      assert Body(clock, ms) == Body(clock, rest) + MemberBytes(clock, ms[last]);
      assert Body(clock, ms)[Start(clock, ms, j)..Start(clock, ms, j + 1)]
          == Body(clock, rest)[Start(clock, ms, j)..Start(clock, ms, j + 1)];
    }
  }

  // ----- local and central headers agree

  /** The two headers of a member agree, the central one giving the real size of the data. */
  predicate Agreeing(m: Member) {
    && m.local.needed == m.central.needed && m.local.compMethod == m.central.compMethod
    && m.local.lastMod == m.central.lastMod && m.local.name == m.central.name != []
    && !HasDescriptor(m.local) && SameSizes(m.local, m.central) && |m.data| == m.central.csize
  }

  lemma DescriptorCleared(local: Dirent, central: Dirent)
    ensures !HasDescriptor(WithoutDescriptor(local, central))
  {
    var f: int := local.flags;
    assert (f - 8) / 8 == f / 8 - 1;
  }

  lemma CopiedAgrees(env: Env, z: Zip, file: Data, i: nat)
    requires Writable(z, i) && !DataChanged(z.entries[i]) && CopiedMember(env, z, file, i).Ok?
    requires LocalAgrees(env.clock, file, z.cdir.value.entries[i]) && NewName(z, i) != []
    ensures Agreeing(CopiedMember(env, z, file, i).value)
  {
    hide Parse;
    var orig := z.cdir.value.entries[i];
    var p := Parse(env.clock, file, orig.offset, |file|, true, ReadError).value;
    DescriptorCleared(p.d, orig);
  }

  lemma NewAgrees(env: Env, z: Zip, i: nat)
    requires Writable(z, i) && DataChanged(z.entries[i]) && NewMember(env, z, i).Ok?
    requires NewName(z, i) != [] && |NewMember(env, z, i).value.data| < 0x1_0000_0000
    ensures Agreeing(NewMember(env, z, i).value)
  {
  }

  lemma AgreeingHeaders(clock: Clock, m: Member, offset: U32)
    requires Agreeing(m)
    ensures HeaderComp(Stored(clock, m.central.(offset := offset), false), false, Stored(clock, m.local, true), true)
  {
  }

  // ----- the consistency check accepts the file

  /** The whole file, directory included. */
  predicate Holds(clock: Clock, ms: seq<Member>, file: Data) {
    |file| < 0x1_0000_0000 && Body(clock, ms) <= file
  }

  lemma LocalReadsBack(clock: Clock, ms: seq<Member>, file: Data, j: nat)
    requires j < |ms| && Holds(clock, ms, file)
    ensures var start := Start(clock, ms, j);
            var data := start + EncodedSize(ms[j].local, true);
            && Parse(clock, file, start, |file|, true, ReadError) == Ok(Parsed(Stored(clock, ms[j].local, true), data))
            && data + |ms[j].data| == Start(clock, ms, j + 1) <= |file|
            && file[data..data + |ms[j].data|] == ms[j].data
  {
    hide Encode, Parse;
    MemberAt(clock, ms, j);
    var start, m := Start(clock, ms, j), ms[j];
    var head := Encode(clock, m.local, true);
    assert file[start..start + (|head| + |m.data|)] == Body(clock, ms)[start..start + (|head| + |m.data|)];
    Pieces(file, start, head, m.data);
    EncodeParse(clock, m.local, true, file, start, |file|, ReadError);
  }

  /** What the reader sees in the central header of member `j`. */
  function Seen(clock: Clock, ms: seq<Member>, j: nat): Dirent
    requires j < |ms|
  {
    Stored(clock, ms[j].central.(offset := ToU32(Start(clock, ms, j))), false)
  }

  lemma StartEnds(clock: Clock, ms: seq<Member>)
    ensures Start(clock, ms, 0) == 0 && Start(clock, ms, |ms|) == |Body(clock, ms)|
  {
    assert ms[..0] == [] && ms[..|ms|] == ms;
  }

  lemma ReachOf(clock: Clock, m: Member, start: U32)
    requires Agreeing(m) && start + |MemberBytes(clock, m)| < 0x1_0000_0000
    ensures var d := Stored(clock, m.central.(offset := start), false);
            start < Reach(d) && Reach(d) == start + |MemberBytes(clock, m)| - |m.local.extra|
  {
    assert |MemberBytes(clock, m)| == EncodedSize(m.local, true) + |m.data|;
  }

  lemma SeenOffset(clock: Clock, ms: seq<Member>, j: nat)
    requires j < |ms| && |Body(clock, ms)| < 0x1_0000_0000
    ensures Seen(clock, ms, j).offset == Start(clock, ms, j)
  {
    hide Body, Start;
    MemberAt(clock, ms, j);
  }

  lemma EntryAgrees(clock: Clock, ms: seq<Member>, file: Data, j: nat)
    requires j < |ms| && Holds(clock, ms, file) && Agreeing(ms[j])
    ensures LocalAgrees(clock, file, Seen(clock, ms, j))
  {
    hide Parse, HeaderComp, Agreeing, Stored, Body, Start;
    LocalReadsBack(clock, ms, file, j);
    SeenOffset(clock, ms, j);
    AgreeingHeaders(clock, ms[j], ToU32(Start(clock, ms, j)));
  }

  lemma EntryPasses(clock: Clock, ms: seq<Member>, file: Data, j: nat)
    requires j < |ms| && Holds(clock, ms, file) && Agreeing(ms[j])
    ensures LocalAgrees(clock, file, Seen(clock, ms, j))
    ensures Seen(clock, ms, j).offset == Start(clock, ms, j)
    ensures Reach(Seen(clock, ms, j)) == Start(clock, ms, j + 1) - |ms[j].local.extra|
    ensures Start(clock, ms, j) < Reach(Seen(clock, ms, j)) <= Start(clock, ms, j + 1) <= |Body(clock, ms)|
  {
    hide LocalAgrees, Agreeing, Reach, MemberBytes, Body, Start, Stored;
    EntryAgrees(clock, ms, file, j);
    SeenOffset(clock, ms, j);
    MemberAt(clock, ms, j);
    ReachOf(clock, ms[j], Start(clock, ms, j));
  }

  predicate SeenCdir(clock: Clock, ms: seq<Member>, cd: Cdir) {
    && |cd.entries| == |ms| && cd.offset == |Body(clock, ms)|
    && forall j | 0 <= j < |ms| :: cd.entries[j] == Seen(clock, ms, j)
  }

  lemma {:induction false} ScoreOfRest(clock: Clock, ms: seq<Member>, file: Data, cd: Cdir, j: nat, hi: U32)
    requires j < |ms| && Holds(clock, ms, file) && SeenCdir(clock, ms, cd)
    requires forall k | 0 <= k < |ms| :: Agreeing(ms[k])
    requires hi <= Start(clock, ms, j)
    ensures ScoreFrom(Agrees(clock, file), cd, j, 0, hi)
         == ToI32(ToU32(Start(clock, ms, |ms|) - |ms[|ms| - 1].local.extra|))
    decreases |ms| - j
  {
    hide Parse, LocalAgrees, Agreeing, Reach, Body;
    EntryPasses(clock, ms, file, j);
    assert cd.entries[j] == Seen(clock, ms, j);
    if j + 1 < |ms| {
      ScoreOfRest(clock, ms, file, cd, j + 1, Reach(cd.entries[j]));
    }
  }

  /**
     The score of the written directory is where its last entry ends without the
     local extra field, as an `int`: `_zip_checkcons` accepts it exactly if that
     is below 2 GB.
     */
  lemma WrittenScore(clock: Clock, ms: seq<Member>, file: Data, cd: Cdir)
    requires ms != [] && Holds(clock, ms, file) && SeenCdir(clock, ms, cd)
    requires forall k | 0 <= k < |ms| :: Agreeing(ms[k])
    ensures Reach(Last(cd.entries)) == |Body(clock, ms)| - |Last(ms).local.extra|
    ensures ScoredByLast(clock, file, cd)
  {
    hide Parse, LocalAgrees, Reach, Agreeing, Body, Start, ScoreFrom, Seen, Holds;
    StartEnds(clock, ms);
    EntryPasses(clock, ms, file, 0);
    EntryPasses(clock, ms, file, |ms| - 1);
    assert cd.entries[0] == Seen(clock, ms, 0) && Last(cd.entries) == Seen(clock, ms, |ms| - 1);
    ScoreOfRest(clock, ms, file, cd, 0, 0);
  }

  ghost predicate ScoredByLast(clock: Clock, file: Data, cd: Cdir) {
    && cd.entries != []
    && Score(clock, file, cd) == ToI32(Reach(Last(cd.entries)))
    && Reach(Last(cd.entries)) <= cd.offset
  }

  // ----- the edits that were closed

  lemma {:induction false} AllAgree(agrees: Dirent -> bool, cd: Cdir, i: nat, lo: U32, hi: U32)
    requires i <= |cd.entries| && ScoreFrom(agrees, cd, i, lo, hi) >= 0
    ensures forall k | i <= k < |cd.entries| :: agrees(cd.entries[k])
    decreases |cd.entries| - i
  {
    if i < |cd.entries| {
      var d := cd.entries[i];
      AllAgree(agrees, cd, i + 1, if d.offset < lo then d.offset else lo, if Reach(d) > hi then Reach(d) else hi);
    }
  }

  /** The archive was opened from a file that `_zip_checkcons` accepts, or is new. */
  predicate ConsistentOrNew(clock: Clock, z: Zip, file: Data) {
    z.cdir.Some? ==> Score(clock, file, z.cdir.value) >= 0
  }

  /** Every surviving name is still there when its length is cut to 16 bits. */
  predicate NamesFit(z: Zip) {
    forall i | 0 <= i < |z.entries| && Name(z, i).Some? :: Clip(Name(z, i).value) != []
  }

  lemma MemberAgreeing(env: Env, z: Zip, file: Data, i: nat)
    requires Writable(z, i) && MemberOf(env, z, file, i).Ok?
    requires ConsistentOrNew(env.clock, z, file) && NamesFit(z)
    requires |MemberOf(env, z, file, i).value.data| < 0x1_0000_0000
    ensures Agreeing(MemberOf(env, z, file, i).value)
  {
    hide Parse, LocalAgrees, Agreeing, CopiedMember, NewMember, Clip;
    if DataChanged(z.entries[i]) {
      NewAgrees(env, z, i);
    } else {
      var cd := z.cdir.value;
      AllAgree(Agrees(env.clock, file), cd, 0, FirstOffset(cd), FirstOffset(cd));
      assert Agrees(env.clock, file)(cd.entries[i]);
      CopiedAgrees(env, z, file, i);
    }
  }

  lemma {:induction false} MembersListed(env: Env, z: Zip, file: Data, list: seq<nat>)
    requires forall k | 0 <= k < |list| :: Writable(z, list[k])
    requires MembersOf(env, z, file, list).Ok?
    ensures var ms := MembersOf(env, z, file, list).value;
            |ms| == |list| && forall k | 0 <= k < |list| :: MemberOf(env, z, file, list[k]) == Ok(ms[k])
  {
    hide MemberOf, Writable;
    if list != [] {
      MembersListed(env, z, file, list[..|list| - 1]);
    }
  }

  function Survivors(z: Zip): seq<nat> { FileList(z.entries, |z.entries|) }

  /** The directory that a reader finds in the written file. */
  function WrittenCdir(clock: Clock, ms: seq<Member>, comment: Short): Cdir
    requires |Body(clock, ms)| < 0x1_0000_0000 && |EncodeEntries(clock, Centrals(clock, ms), 0)| < 0x1_0000_0000
  {
    var es := Centrals(clock, ms);
    Cdir(StoredAll(clock, es), |EncodeEntries(clock, es, 0)|, |Body(clock, ms)|, comment)
  }

  lemma WrittenIsSeen(clock: Clock, ms: seq<Member>, comment: Short)
    requires |Body(clock, ms)| < 0x1_0000_0000 && |EncodeEntries(clock, Centrals(clock, ms), 0)| < 0x1_0000_0000
    ensures SeenCdir(clock, ms, WrittenCdir(clock, ms, comment))
  {
    hide Stored, Body;
    forall j | 0 <= j < |ms| ensures WrittenCdir(clock, ms, comment).entries[j] == Seen(clock, ms, j) {
      MemberAt(clock, ms, j);
    }
  }

  /**
     What a source becomes: data that it offers as stored is deflated and measured,
     any other kind is taken as it comes, with the figures that the source reports.
     */
  predicate SourceKept(env: Env, src: Source, d: Dirent, data: Data) {
    && src.stat.Some? && src.opens && !src.readFails && src.closes
    && var st := src.stat.value;
       && d.lastMod == StoredTime(env.clock, st.mtime) && d.csize == |data|
       && if st.compMethod == 0 then
            && data == env.deflate(src.data) && d.compMethod == 8
            && d.crc == Crc(env.crcStep, 0, src.data) && d.usize == ToU32(|src.data|)
          else
            && data == src.data && d.compMethod == st.compMethod
            && d.crc == st.crc && d.usize == ToU32(st.size)
  }

  /** What else a new entry has in its header. */
  predicate FreshHeader(d: Dirent) {
    && d.madeBy == 0 && d.needed == 20 && d.flags == 0 && d.extra == []
    && d.disk == 0 && d.intAttr == 0 && d.extAttr == 0
  }

  /**
     `d` and `data` are what the new file holds for entry `i`. A copied entry keeps
     its data and everything in its central header but name, comment and offset;
     a new one has what its source becomes.
     */
  predicate EntryKept(env: Env, z: Zip, file: Data, i: nat, d: Dirent, data: Data) {
    && Writable(z, i)
    && d.name == NulsToSpaces(Clip(Name(z, i).value))
    && var e := z.entries[i];
       if DataChanged(e) then
         SourceKept(env, e.source.value, d, data) && FreshHeader(d) && d.comment == NewComment(e, [])
       else
         && var orig := z.cdir.value.entries[i];
            && var p := Parse(env.clock, file, orig.offset, |file|, true, ReadError);
               && p.Ok? && p.value.next + orig.csize <= |file|
               && data == file[p.value.next..p.value.next + orig.csize]
               && d == Stored(env.clock, orig, false).(name := d.name, comment := NewComment(e, orig.comment),
                                                       offset := d.offset)
  }

  /**
     What the local header of entry `i` has that is not in the central one: a
     copied entry keeps its local extra field and its flags, but that for a data
     descriptor; a new one has none.
     */
  predicate LocalKept(env: Env, z: Zip, file: Data, out: Data, i: nat, d: Dirent) {
    && Writable(z, i)
    && var new_ := Parse(env.clock, out, d.offset, |out|, true, ReadError);
       && new_.Ok?
       && if DataChanged(z.entries[i]) then new_.value.d.flags == 0 && new_.value.d.extra == []
          else
            var old_ := Parse(env.clock, file, z.cdir.value.entries[i].offset, |file|, true, ReadError);
            && old_.Ok? && new_.value.d.extra == old_.value.d.extra
            && new_.value.d.flags == old_.value.d.flags - if old_.value.d.flags / 8 % 2 == 1 then 8 else 0
  }

  /**
     What closing an edited archive promises about the new file `out`: `cd` is
     its directory and `data` the data of its entries.
     */
  ghost predicate WellWritten(env: Env, z: Zip, file: Data, out: Data, cd: Cdir, starts: seq<nat>, data: seq<Data>) {
    var list := Survivors(z);
    // one entry for each survivor, in order
    && |cd.entries| == |data| == |list| == |starts| - 1
    && (forall j | 0 <= j < |list| :: EntryKept(env, z, file, list[j], cd.entries[j], data[j]))
    && (forall j | 0 <= j < |list| :: LocalKept(env, z, file, out, list[j], cd.entries[j]))
    && cd.comment == ArchiveComment(z)
    // the regions abut, from the start of the file to the directory
    && starts[0] == 0 && starts[|list|] == cd.offset
    && (forall j | 0 <= j < |list| :: RegionOk(env.clock, out, cd.entries[j], starts[j], starts[j + 1], data[j]))
    // and the consistency check goes by where the last entry ends
    && ScoredByLast(env.clock, out, cd)
  }

  /** The entry points at a local header that agrees with it; its data follow and reach to the next region. */
  predicate RegionOk(clock: Clock, file: Data, d: Dirent, start: nat, end: nat, data: Data) {
    var p := Parse(clock, file, d.offset, |file|, true, ReadError);
    && d.offset == start
    && p.Ok? && HeaderComp(d, false, p.value.d, true) && !HasDescriptor(p.value.d)
    && p.value.next + d.csize == end <= |file|
    && file[p.value.next..p.value.next + d.csize] == data
  }

  predicate MemberRegionOk(clock: Clock, out: Data, ms: seq<Member>, j: nat)
    requires j < |ms|
  {
    RegionOk(clock, out, Seen(clock, ms, j), Start(clock, ms, j), Start(clock, ms, j + 1), ms[j].data)
  }

  lemma RegionHolds(clock: Clock, ms: seq<Member>, file: Data, j: nat)
    requires j < |ms| && Holds(clock, ms, file) && Agreeing(ms[j])
    ensures RegionOk(clock, file, Seen(clock, ms, j), Start(clock, ms, j), Start(clock, ms, j + 1), ms[j].data)
  {
    hide Parse, HeaderComp, Body;
    LocalReadsBack(clock, ms, file, j);
    EntryPasses(clock, ms, file, j);
    AgreeingHeaders(clock, ms[j], ToU32(Start(clock, ms, j)));
  }

  lemma MemberKept(env: Env, z: Zip, file: Data, i: nat, offset: U32)
    requires Writable(z, i) && MemberOf(env, z, file, i).Ok?
    requires |MemberOf(env, z, file, i).value.data| < 0x1_0000_0000
    ensures var m := MemberOf(env, z, file, i).value;
            EntryKept(env, z, file, i, Stored(env.clock, m.central.(offset := offset), false), m.data)
  {
    hide Parse;
  }

  lemma MemberWritten(env: Env, z: Zip, file: Data, ms: seq<Member>, out: Data, i: nat, j: nat)
    requires Writable(z, i) && j < |ms| && MemberOf(env, z, file, i) == Ok(ms[j])
    requires ConsistentOrNew(env.clock, z, file) && NamesFit(z) && Holds(env.clock, ms, out)
    ensures Agreeing(ms[j])
    ensures MemberRegionOk(env.clock, out, ms, j)
    ensures EntryKept(env, z, file, i, Seen(env.clock, ms, j), ms[j].data)
    ensures LocalKept(env, z, file, out, i, Seen(env.clock, ms, j))
  {
    hide LocalKept, MemberOf, Body, Start, Agreeing, ConsistentOrNew, NamesFit, RegionOk, EntryKept, Writable;
    MemberAt(env.clock, ms, j);
    MemberAgreeing(env, z, file, i);
    RegionHolds(env.clock, ms, out, j);
    MemberKept(env, z, file, i, ToU32(Start(env.clock, ms, j)));
    LocalHeaderKept(env, z, file, ms, out, i, j);
  }

  lemma LocalHeaderKept(env: Env, z: Zip, file: Data, ms: seq<Member>, out: Data, i: nat, j: nat)
    requires Writable(z, i) && j < |ms| && MemberOf(env, z, file, i) == Ok(ms[j]) && Holds(env.clock, ms, out)
    ensures LocalKept(env, z, file, out, i, Seen(env.clock, ms, j))
  {
    hide Parse, Body, Start, Pack;
    LocalReadsBack(env.clock, ms, out, j);
    SeenOffset(env.clock, ms, j);
    MemberLocal(env, z, file, i);
  }

  lemma MemberLocal(env: Env, z: Zip, file: Data, i: nat)
    requires Writable(z, i) && MemberOf(env, z, file, i).Ok?
    ensures var local := MemberOf(env, z, file, i).value.local;
            if DataChanged(z.entries[i]) then local.flags == 0 && local.extra == []
            else
              var old_ := Parse(env.clock, file, z.cdir.value.entries[i].offset, |file|, true, ReadError);
              && old_.Ok? && local.extra == old_.value.d.extra
              && local.flags == old_.value.d.flags - if old_.value.d.flags / 8 % 2 == 1 then 8 else 0
  {
    hide Parse, Pack;
  }

  lemma ClosedAs(env: Env, z: Zip, file: Data, out: Data) returns (ms: seq<Member>)
    requires Closable(z) && CloseResult(env, z, file) == Written(out)
    ensures |ms| == |Survivors(z)| > 0 && out == Image(env.clock, ms, ArchiveComment(z))
    ensures var list := Survivors(z);
            forall j | 0 <= j < |ms| :: Writable(z, list[j]) && MemberOf(env, z, file, list[j]) == Ok(ms[j])
  {
    hide Inv, Named, Writable, MemberOf, Image;
    ListWritable(z, |z.entries|);
    ms := MembersOf(env, z, file, Survivors(z)).value;
    MembersListed(env, z, file, Survivors(z));
  }

  lemma HoldsBody(clock: Clock, ms: seq<Member>, file: Data)
    requires |file| < 0x1_0000_0000 && Body(clock, ms) <= file
    ensures Holds(clock, ms, file)
  {
  }

  lemma MembersWritten(env: Env, z: Zip, file: Data, ms: seq<Member>, out: Data, list: seq<nat>)
    requires |list| == |ms| && ConsistentOrNew(env.clock, z, file) && NamesFit(z) && Holds(env.clock, ms, out)
    requires forall j | 0 <= j < |ms| :: Writable(z, list[j]) && MemberOf(env, z, file, list[j]) == Ok(ms[j])
    ensures forall j | 0 <= j < |ms| :: Agreeing(ms[j])
    ensures forall j | 0 <= j < |ms| :: MemberRegionOk(env.clock, out, ms, j)
    ensures forall j | 0 <= j < |ms| :: EntryKept(env, z, file, list[j], Seen(env.clock, ms, j), ms[j].data)
    ensures forall j | 0 <= j < |ms| :: LocalKept(env, z, file, out, list[j], Seen(env.clock, ms, j))
  {
    hide LocalKept, MemberOf, Start, Seen, Agreeing, ConsistentOrNew, NamesFit, RegionOk, EntryKept, Writable, Holds;
    forall j | 0 <= j < |ms|
      ensures Agreeing(ms[j])
      ensures MemberRegionOk(env.clock, out, ms, j)
      ensures EntryKept(env, z, file, list[j], Seen(env.clock, ms, j), ms[j].data)
      ensures LocalKept(env, z, file, out, list[j], Seen(env.clock, ms, j))
    {
      MemberWritten(env, z, file, ms, out, list[j], j);
    }
  }

  /**
     Closing an archive that was consistent, after any edits that leave every
     survivor a name, writes a file that is well written; reading the directory
     at its end record gives back that directory, from memory or from the file.
     The consistency check accepts it exactly if its last entry ends below 2 GB.
     */
  lemma WrittenFileIsConsistent(env: Env, z: Zip, file: Data, out: Data)
    requires Closable(z) && NamesFit(z) && ConsistentOrNew(env.clock, z, file)
    requires CloseResult(env, z, file) == Written(out)
    requires |out| < 0x1_0000_0000 && |Survivors(z)| < 0x1_0000
    ensures exists cd, starts, data ::
              && WellWritten(env, z, file, out, cd, starts, data) && ReadableFromEnd(env.clock, out, cd)
              && (Score(env.clock, out, cd) >= 0 <==> Reach(Last(cd.entries)) < 0x8000_0000)
  {
    hide ReadableFromEnd, Closable, NamesFit, ConsistentOrNew, CloseResult, Score, Reach, EntryKept, RegionOk,
         LocalKept;
    var cd, starts, data := WrittenIsWell(env, z, file, out);
  }

  lemma WrittenIsWell(env: Env, z: Zip, file: Data, out: Data)
    returns (cd: Cdir, starts: seq<nat>, data: seq<Data>)
    requires Closable(z) && NamesFit(z) && ConsistentOrNew(env.clock, z, file)
    requires CloseResult(env, z, file) == Written(out)
    requires |out| < 0x1_0000_0000 && |Survivors(z)| < 0x1_0000
    ensures WellWritten(env, z, file, out, cd, starts, data) && ReadableFromEnd(env.clock, out, cd)
  {
    hide MemberOf, Body, Start, Agreeing, Closable, NamesFit, ConsistentOrNew, Score, EncodeEntries, RegionOk,
         EntryKept, LocalKept, Writable, ReadableFromEnd, CloseResult, Survivors, Image, Seen, Holds, Centrals,
         StoredAll, ScoredByLast;
    var clock, list, comment := env.clock, Survivors(z), ArchiveComment(z);
    var ms := ClosedAs(env, z, file, out);
    SizesOfImage(clock, ms, comment, out);
    HoldsBody(clock, ms, out);
    cd := WrittenCdir(clock, ms, comment);
    WrittenIsSeen(clock, ms, comment);
    StartEnds(clock, ms);
    starts := seq(|ms| + 1, j requires 0 <= j <= |ms| => Start(clock, ms, j));
    data := seq(|ms|, j requires 0 <= j < |ms| => ms[j].data);
    MembersWritten(env, z, file, ms, out, list);
    forall j | 0 <= j < |ms|
      ensures cd.entries[j] == Seen(clock, ms, j)
      ensures RegionOk(clock, out, cd.entries[j], starts[j], starts[j + 1], data[j])
    {
      assert MemberRegionOk(clock, out, ms, j);
    }
    WrittenScore(clock, ms, out, cd);
    assert WellWritten(env, z, file, out, cd, starts, data);
    ReadableImage(clock, ms, comment, out);
  }

  /** Any end of the file that holds the end record will do, with or without the stricter check. */
  ghost predicate ReadableFromEnd(clock: Clock, file: Data, cd: Cdir) {
    var eocd := |file| - EOCDLEN - |cd.comment|;
    && eocd >= 0
    && OccursAt(file, eocd, EOCD_MAGIC)
    && forall skip: nat, checkCons: bool | skip <= eocd :: ReadsAs(clock, file, skip, eocd, checkCons, cd)
  }

  predicate ReadsAs(clock: Clock, file: Data, skip: nat, eocd: nat, checkCons: bool, cd: Cdir)
    requires skip <= eocd <= |file|
  {
    ParseCdir(clock, file, file[skip..], eocd - skip, checkCons) == Ok(cd)
  }

  lemma SizesOfImage(clock: Clock, ms: seq<Member>, comment: Short, out: Data)
    requires out == Image(clock, ms, comment)
    ensures |Body(clock, ms)| + |EncodeEntries(clock, Centrals(clock, ms), 0)| + EOCDLEN + |comment| == |out|
    ensures Body(clock, ms) <= out
  {
  }

  lemma ImageReadsAs(clock: Clock, ms: seq<Member>, comment: Short, out: Data, skip: nat, checkCons: bool)
    requires out == Image(clock, ms, comment) && |out| < 0x1_0000_0000 && |ms| < 0x1_0000
    requires |Body(clock, ms)| + |EncodeEntries(clock, Centrals(clock, ms), 0)| + EOCDLEN + |comment| == |out|
    requires skip <= |Body(clock, ms)| + |EncodeEntries(clock, Centrals(clock, ms), 0)|
    ensures ReadsAs(clock, out, skip, |out| - EOCDLEN - |comment|, checkCons, WrittenCdir(clock, ms, comment))
  {
    hide ParseCdir, Body, EncodeEntries, EncodeEocd, StoredAll, Centrals;
    var es, at := Centrals(clock, ms), |Body(clock, ms)|;
    var cdir := EncodeCdir(clock, es, at, comment);
    assert out[at..at + |cdir|] == cdir;
    CdirRoundTrip(clock, es, comment, out, at, out[skip..], checkCons);
  }

  lemma ReadableImage(clock: Clock, ms: seq<Member>, comment: Short, out: Data)
    requires out == Image(clock, ms, comment) && |out| < 0x1_0000_0000 && |ms| < 0x1_0000
    requires |Body(clock, ms)| + |EncodeEntries(clock, Centrals(clock, ms), 0)| + EOCDLEN + |comment| == |out|
    ensures ReadableFromEnd(clock, out, WrittenCdir(clock, ms, comment))
  {
    hide ReadsAs, OccursAt, Image, Body, EncodeEntries, Centrals, StoredAll;
    var eocd := |out| - EOCDLEN - |comment|;
    forall skip: nat, checkCons: bool | skip <= eocd
      ensures ReadsAs(clock, out, skip, eocd, checkCons, WrittenCdir(clock, ms, comment))
    {
      ImageReadsAs(clock, ms, comment, out, skip, checkCons);
    }
    EocdMagicAt(clock, ms, comment, out);
  }

  lemma EocdMagicAt(clock: Clock, ms: seq<Member>, comment: Short, out: Data)
    requires out == Image(clock, ms, comment)
    ensures OccursAt(out, |out| - EOCDLEN - |comment|, EOCD_MAGIC)
  {
    hide Body, EncodeEntries, PutFields, Centrals;
    var es, at := Centrals(clock, ms), |Body(clock, ms)|;
    var body := EncodeEntries(clock, es, 0);
    var end := EncodeEocd(|es|, ToU32(at + |body| - ToU32(at)), ToU32(at), comment);
    assert out == (Body(clock, ms) + body) + end;
    assert end[..4] == EOCD_MAGIC;
    assert out[at + |body|..at + |body| + 4] == end[..4];
  }

  // ----- opening the file again

  lemma OccursInTail(file: Data, skip: nat, p: nat)
    requires skip + p + EOCDLEN <= |file|
    ensures OccursAt(file[skip..], p, EOCD_MAGIC) <==> OccursAt(file, p + skip, EOCD_MAGIC)
  {
    assert file[skip..][p..p + 4] == file[p + skip..p + skip + 4];
  }

  /** Wherever else the magic number occurs, the written directory is among the candidates. */
  lemma WrittenIsCandidate(clock: Clock, file: Data, cd: Cdir, checkCons: bool)
    requires |file| > 0 && ReadableFromEnd(clock, file, cd)
    ensures cd in FileCandidates(clock, file, checkCons)
  {
    hide ParseCdir, Candidates, OccursAt;
    var skip := |file| - Min(|file|, CDBUFSIZE);
    var eocd := |file| - EOCDLEN - |cd.comment|;
    assert ReadsAs(clock, file, skip, eocd, checkCons, cd);
    OccursInTail(file, skip, eocd - skip);
    CandidateFound(clock, file, file[skip..], checkCons, 0, eocd - skip, cd);
  }

  /** Every other directory that can be read in the last bytes scores less. */
  ghost predicate Outscores(clock: Clock, file: Data, cd: Cdir, checkCons: bool) {
    forall other | other in FileCandidates(clock, file, checkCons) && other != cd ::
      Score(clock, file, other) < Score(clock, file, cd)
  }

  /** What opening makes of a written file: it finds `cd` exactly if `cd` is the best candidate and passes. */
  ghost predicate Reopens(clock: Clock, file: Data, cd: Cdir, checkCons: bool, r: Result<Cdir, ZipError>) {
    var cds := FileCandidates(clock, file, checkCons);
    var passes := (|cds| == 1 && !checkCons) || (cd.entries != [] && Reach(Last(cd.entries)) < 0x8000_0000);
    && cd in cds
    && (r == Ok(cd) <==> Best(Scorer(clock, file), cds, cd) && passes)
    && (Outscores(clock, file, cd, checkCons) && passes ==> r == Ok(cd))
  }

  /**
     Opening the written file finds the directory that was written exactly if it
     is the earliest candidate of greatest score and, unless it is the only one
     and no check was asked for, ends below 2 GB. That is so whenever no other
     end record in the last bytes leads to as good a directory.
     */
  lemma WrittenFileReopens(env: Env, z: Zip, file: Data, out: Data, cd: Cdir, starts: seq<nat>, data: seq<Data>,
                           checkCons: bool, r: Result<Cdir, ZipError>)
    requires WellWritten(env, z, file, out, cd, starts, data) && ReadableFromEnd(env.clock, out, cd)
    requires Verdict(Scorer(env.clock, out), FileCandidates(env.clock, out, checkCons), checkCons, r)
    ensures Reopens(env.clock, out, cd, checkCons, r)
  {
    hide Score, EntryKept, LocalKept, RegionOk, ParseCdir, FileCandidates, Verdict, Best, Reach;
    var score, cds := Scorer(env.clock, out), FileCandidates(env.clock, out, checkCons);
    WrittenIsCandidate(env.clock, out, cd, checkCons);
    VerdictPicks(score, cds, checkCons, r, cd);
    if Outscores(env.clock, out, cd, checkCons) {
      BestIfOutscores(score, cds, cd);
    }
  }

  /**
     A comment set with `zip_set_archive_comment` is what the written file says
     exactly if it is shorter than 65536 bytes and the archive was not opened as
     a torrentzip, or if it is empty.
     */
  lemma CommentKeptIff(z: Zip)
    requires z.chComment.Some? && |z.chComment.value| <= MAXCOMLEN
    ensures ArchiveComment(z) == z.chComment.value
       <==> z.chComment.value == [] || (|z.chComment.value| < MAXCOMLEN && TORRENT !in z.flags)
    ensures |z.chComment.value| == MAXCOMLEN ==> ArchiveComment(z) == []
  {
  }

  /** An archive whose comment was not set keeps the one it was opened with, unless it was opened as a torrentzip. */
  lemma OldCommentKept(z: Zip)
    requires z.chComment.None?
    ensures ArchiveComment(z) == if TORRENT in z.flags || z.cdir.None? then [] else z.cdir.value.comment
  {
  }

  /** The longest comment that is accepted is lost from any archive. */
  lemma LongestCommentLost(z: Zip, comment: Data)
    requires Opened(z) && |comment| == 65536
    ensures var op := ArchiveCommentOp(comment);
            && Apply(z, op).ret == Ok(0) && Apply(z, op).z.chComment == Some(comment)
            && ArchiveComment(Apply(z, op).z) == []
  {
    CommentKeptIff(Apply(z, ArchiveCommentOp(comment)).z);
  }

  /** Names and file comments are written as they are exactly if they are shorter than 65536 bytes. */
  lemma TextsKeptIff(z: Zip, i: nat, otherwise: Short)
    requires i < |z.entries| && Name(z, i).Some?
    ensures NewName(z, i) == Name(z, i).value <==> |Name(z, i).value| < 0x1_0000
    ensures var c := z.entries[i].chComment;
            && (c.Some? ==> (NewComment(z.entries[i], otherwise) == c.value <==> |c.value| < 0x1_0000))
            && (c.Some? && |c.value| == MAXCOMLEN ==> NewComment(z.entries[i], otherwise) == [])
  {
    ClipIff(Name(z, i).value);
    if z.entries[i].chComment.Some? { ClipIff(z.entries[i].chComment.value); }
  }

  lemma ClipIff(s: Data)
    ensures Clip(s) == s <==> |s| < 0x1_0000
  {
    if |s| < 0x1_0000 {
      assert |s| % 0x1_0000 == |s|;
    } else {
      assert |Clip(s)| < |s|;
    }
  }

  // ----- when closing fails

  /** An entry cannot be written exactly if its source fails, or its old header or data cannot be read. */
  predicate Unwritable(env: Env, z: Zip, file: Data, i: nat)
    requires Writable(z, i)
  {
    if DataChanged(z.entries[i]) then
      var src := z.entries[i].source.value;
      src.stat.None? || !src.opens || src.readFails || !src.closes
    else
      var orig := z.cdir.value.entries[i];
      var p := Parse(env.clock, file, orig.offset, |file|, true, ReadError);
      p.Err? || p.value.next + orig.csize > |file|
  }

  lemma {:induction false} MembersFailIff(env: Env, z: Zip, file: Data, list: seq<nat>)
    requires forall k | 0 <= k < |list| :: Writable(z, list[k])
    ensures MembersOf(env, z, file, list).Err? <==> exists k | 0 <= k < |list| :: Unwritable(env, z, file, list[k])
  {
    hide Parse, Writable;
    if list != [] {
      var last := |list| - 1;
      MembersFailIff(env, z, file, list[..last]);
      assert MemberOf(env, z, file, list[last]).Err? <==> Unwritable(env, z, file, list[last]);
      if k :| 0 <= k < |list| && Unwritable(env, z, file, list[k]) {
        assert k < last ==> list[..last][k] == list[k];
      }
    }
  }

  /** `zip_close` fails exactly if it has something to write and some survivor cannot be written. */
  lemma CloseFailsIff(env: Env, z: Zip, file: Data)
    requires Closable(z)
    ensures CloseResult(env, z, file).Failed?
       <==> IsChanged(z)
            && exists k | 0 <= k < |Survivors(z)| ::
                 Writable(z, Survivors(z)[k]) && Unwritable(env, z, file, Survivors(z)[k])
  {
    hide Inv, Named, Writable, Unwritable, IsChanged;
    ListWritable(z, |z.entries|);
    MembersFailIff(env, z, file, Survivors(z));
  }

  /** What `zip_close` does: nothing, take the file away, fail, or write it, each exactly when it should. */
  lemma CloseOutcome(env: Env, z: Zip, file: Data)
    requires Closable(z)
    ensures CloseResult(env, z, file).Untouched?
       <==> z.chComment.None? && z.chFlags == z.flags
            && forall i | 0 <= i < |z.entries| :: z.entries[i].state == Unchanged && z.entries[i].chComment.None?
    ensures CloseResult(env, z, file).Removed?
       <==> IsChanged(z) && forall i | 0 <= i < |z.entries| :: z.entries[i].state == Deleted
  {
    hide Inv, Named;
    ListWritable(z, |z.entries|);
    SurvivorsIff(z.entries, |z.entries|);
    if Survivors(z) != [] { assert Survivors(z)[0] in Survivors(z); }
    forall i | 0 <= i < |z.entries|
      ensures EntryTouched(z.entries[i]) <==> !(z.entries[i].state == Unchanged && z.entries[i].chComment.None?)
      ensures i in Survivors(z) <==> z.entries[i].state != Deleted
    {
    }
  }
}
