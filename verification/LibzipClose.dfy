/** Closing an archive: writing a new file from the entries that survive the edits. */
module ZipClose {
  import opened Basics
  import opened Results
  import opened ZipBytes
  import opened ZipFormat
  import opened ZipDirectory
  import opened ZipArchive

  /** The foreign calls: the C library's time, zlib's `crc32` step and its deflate stream as a whole. */
  datatype Env = Env(clock: Clock, crcStep: (U32, Byte) -> U32, deflate: Data -> Data)

  const CM_STORE := 0
  const CM_DEFLATE := 8

  // ----- data sources

  /** What a source turns into inside the archive. */
  datatype Packed = Packed(mtime: int, compMethod: U16, crc: U32, usize: U32, data: Data)

  /**
     Data that a source offers as compressed is stored as it comes, with the
     figures the source reports; anything else is deflated and measured here.
     */
  function Pack(env: Env, src: Source): Result<Packed, ZipError> {
    if src.stat.None? || !src.opens || src.readFails || !src.closes then Err(SourceError)
    else
      var st := src.stat.value;
      if st.compMethod != CM_STORE then Ok(Packed(st.mtime, st.compMethod, st.crc, ToU32(st.size), src.data))
      else Ok(Packed(st.mtime, CM_DEFLATE, Crc(env.crcStep, 0, src.data), ToU32(|src.data|), env.deflate(src.data)))
  }

  function Filled(d: Dirent, p: Packed): Dirent {
    d.(lastMod := p.mtime, compMethod := p.compMethod, crc := p.crc, usize := p.usize, csize := ToU32(|p.data|))
  }

  /** The state of a source that was opened for reading. */
  class Reader {
    const source: Source
    var left: Data

    constructor (source: Source)
      ensures this.source == source && left == source.data
    {
      this.source, this.left := source, source.data;
    }

    /** `ZIP_SOURCE_READ` with a buffer of `n` bytes; a negative count is `None`. */
    method Read(n: nat) returns (r: Option<Data>)
      requires n > 0
      modifies `left
      ensures r.None? <==> old(left) == [] && source.readFails
      ensures r.Some? ==> old(left) == r.value + left && |r.value| <= n && (r.value == [] <==> old(left) == [])
    {
      if left == [] && source.readFails {
        return None;
      }
      var chunk := left[..Min(n, |left|)];
      left := left[|chunk|..];
      r := Some(chunk);
    }
  }

  /** `add_data_comp` */
  method AddDataComp(src: Source, out: Stream) returns (csize: Option<nat>)
    requires out.pos == |out.bytes|
    modifies out
    ensures csize.None? <==> src.readFails
    ensures csize.Some? ==> csize.value == |src.data| && out.bytes == old(out.bytes) + src.data
    ensures out.pos == |out.bytes| && old(out.bytes) <= out.bytes
  {
    var reader := new Reader(src);
    var size := 0;
    while true
      invariant fresh(reader) && reader.source == src
      invariant out.pos == |out.bytes| && old(out.bytes) <= out.bytes
      invariant out.bytes + reader.left == old(out.bytes) + src.data && size + |reader.left| == |src.data|
      decreases |reader.left|
    {
      var n := reader.Read(BUFSIZE);
      if n.None? {
        return None;
      }
      if n.value == [] {
        break;
      }
      OverwriteEnd(out.bytes, n.value);
      assert out.bytes + n.value + reader.left == out.bytes + (n.value + reader.left);
      out.Write(n.value);
      size := size + |n.value|;
    }
    csize := Some(size);
  }

  /** `add_data_uncomp`; zlib's output is written when its input is complete. */
  method AddDataUncomp(env: Env, src: Source, out: Stream) returns (r: Option<(nat, U32, nat)>)
    requires out.pos == |out.bytes|
    modifies out
    ensures r.None? <==> src.readFails
    ensures r.Some? ==> r.value == (|src.data|, Crc(env.crcStep, 0, src.data), |env.deflate(src.data)|)
    ensures r.Some? ==> out.bytes == old(out.bytes) + env.deflate(src.data)
    ensures out.pos == |out.bytes| && old(out.bytes) <= out.bytes
  {
    hide Overwrite, Crc;
    var reader := new Reader(src);
    var fed: Data, size: nat, crc: U32 := [], 0, 0;
    CrcEmpty(env.crcStep, 0);
    while true
      invariant fresh(reader) && reader.source == src
      invariant out.bytes == old(out.bytes) && out.pos == |out.bytes|
      invariant fed + reader.left == src.data && size == |fed| && crc == Crc(env.crcStep, 0, fed)
      decreases |reader.left|
    {
      var n := reader.Read(BUFSIZE);
      if n.None? {
        return None;
      }
      if n.value == [] {
        break;
      }
      CrcAppend(env.crcStep, 0, fed, n.value);
      assert fed + n.value + reader.left == fed + (n.value + reader.left);
      size := size + |n.value|;
      crc := Crc(env.crcStep, crc, n.value);
      fed := fed + n.value;
    }
    assert fed == src.data;
    var packed := env.deflate(fed);
    OverwriteEnd(out.bytes, packed);
    out.Write(packed);
    r := Some((size, crc, |packed|));
  }

  /** A header rewritten in place covers exactly the bytes that were written first. */
  lemma BackPatch(base: Data, h0: Data, h1: Data, data: Data)
    requires |h0| == |h1|
    ensures Overwrite(base + h0 + data, |base|, h1) == base + h1 + data
  {
  }

  /** `add_data`: header, data, then the header again with what is known by now. */
  method AddData(env: Env, src: Source, de: Dirent, out: Stream) returns (r: Result<Dirent, ZipError>)
    requires out.pos == |out.bytes|
    modifies out
    ensures r.Ok? <==> Pack(env, src).Ok?
    ensures r.Ok? <==> src.stat.Some? && src.opens && !src.readFails && src.closes
    ensures r.Ok? ==> var st := src.stat.value;
                      if st.compMethod == 0 then
                        && r.value == de.(lastMod := st.mtime, compMethod := 8, crc := Crc(env.crcStep, 0, src.data),
                                          usize := ToU32(|src.data|), csize := ToU32(|env.deflate(src.data)|))
                        && out.bytes == old(out.bytes) + Encode(env.clock, r.value, true) + env.deflate(src.data)
                      else
                        && r.value == de.(lastMod := st.mtime, compMethod := st.compMethod, crc := st.crc,
                                          usize := ToU32(st.size), csize := ToU32(|src.data|))
                        && out.bytes == old(out.bytes) + Encode(env.clock, r.value, true) + src.data
    ensures r.Ok? ==> var p := Pack(env, src).value;
                      && r.value == Filled(de, p)
                      && out.bytes == old(out.bytes) + Encode(env.clock, r.value, true) + p.data
    ensures r.Ok? ==> out.pos == |out.bytes|
    ensures r.Err? ==> r == Err(SourceError)
  {
    hide Encode, Overwrite;
    if src.stat.None? {
      return Err(SourceError);
    }
    var st := src.stat.value;
    if !src.opens {
      return Err(SourceError);
    }
    var offstart := out.pos;
    ghost var base := out.bytes;
    ghost var h0 := Encode(env.clock, de, true);
    OverwriteEnd(base, h0);
    WriteDirent(env.clock, de, out, true);
    var compMethod, size, crc, csize := st.compMethod, st.size, st.crc, 0;
    ghost var data: Data;
    if st.compMethod != CM_STORE {
      var n := AddDataComp(src, out);
      if n.None? {
        return Err(SourceError);
      }
      csize := n.value;
      data := src.data;
    } else {
      var n := AddDataUncomp(env, src, out);
      if n.None? {
        return Err(SourceError);
      }
      compMethod, size, crc, csize := CM_DEFLATE, n.value.0, n.value.1, n.value.2;
      data := env.deflate(src.data);
    }
    if !src.closes {
      return Err(SourceError);
    }
    var offend := out.pos;
    out.Seek(offstart);
    var filled := de.(lastMod := st.mtime, compMethod := compMethod, crc := crc,
                      usize := ToU32(size), csize := ToU32(csize));
    BackPatch(base, h0, Encode(env.clock, filled, true), data);
    WriteDirent(env.clock, filled, out, true);
    out.Seek(offend);
    r := Ok(filled);
  }

  lemma Extended(s: Data, a: nat, b: nat, c: nat)
    requires a <= b <= c <= |s|
    ensures s[a..c] == s[a..b] + s[b..c]
  {
  }

  /** One turn of the loop of `copy_data`. */
  method CopyChunk(fp: Stream, n: nat, out: Stream) returns (got: Data)
    requires fp != out && out.pos == |out.bytes| && fp.pos <= |fp.bytes|
    modifies out, fp`pos
    ensures |got| == Min(n, |fp.bytes| - old(fp.pos)) && fp.pos == old(fp.pos) + |got|
    ensures got == fp.bytes[old(fp.pos)..fp.pos] && fp.bytes == old(fp.bytes)
    ensures out.bytes == old(out.bytes) + got && out.pos == |out.bytes|
  {
    hide Overwrite;
    got := fp.Read(n);
    if |got| > 0 {
      OverwriteEnd(out.bytes, got);
      out.Write(got);
    }
  }

  /** `copy_data` */
  method CopyData(fp: Stream, len: nat, out: Stream) returns (ok: bool)
    requires fp != out && out.pos == |out.bytes| && fp.pos <= |fp.bytes|
    modifies out, fp`pos
    ensures ok <==> old(fp.pos) + len <= |fp.bytes|
    ensures ok ==> out.bytes == old(out.bytes) + fp.bytes[old(fp.pos)..old(fp.pos) + len]
    ensures out.pos == |out.bytes| && fp.bytes == old(fp.bytes)
  {
    hide Overwrite;
    var left := len;
    ghost var at, base, done := fp.pos, out.bytes, [];
    while left > 0
      invariant at <= fp.pos <= |fp.bytes| && fp.bytes == old(fp.bytes)
      invariant 0 <= left <= len && fp.pos == at + (len - left)
      invariant out.pos == |out.bytes| && out.bytes == base + done && done == fp.bytes[at..fp.pos]
    {
      var got := CopyChunk(fp, if left > BUFSIZE then BUFSIZE else left, out);
      if |got| == 0 {
        return false;
      }
      Extended(fp.bytes, at, fp.pos - |got|, fp.pos);
      assert base + done + got == base + (done + got);
      done := done + got;
      left := left - |got|;
    }
    ok := true;
  }

  // ----- one surviving entry

  /** Its local header, its data, and its central header but for the offset. */
  datatype Member = Member(local: Dirent, data: Data, central: Dirent)

  /** The length of a name or comment ends up in an `unsigned short`. */
  function Clip(s: Data): Short { s[..|s| % 0x1_0000] }

  function NewName(z: Zip, i: nat): Data
    requires i < |z.entries| && Name(z, i).Some?
  {
    Clip(Name(z, i).value)
  }

  function NewComment(e: Entry, otherwise: Short): Short {
    if e.chComment.Some? then Clip(e.chComment.value) else otherwise
  }

  /** The descriptor bit is cleared, and the sizes it stood for are filled in. */
  function WithoutDescriptor(local: Dirent, central: Dirent): Dirent {
    if HasDescriptor(local) then
      local.(crc := central.crc, csize := central.csize, usize := central.usize, flags := local.flags - DATA_DESCRIPTOR)
    else local
  }

  function CopiedMember(env: Env, z: Zip, file: Data, i: nat): Result<Member, ZipError>
    requires i < |z.entries| && i < Originals(z)
  {
    var e, orig := z.entries[i], z.cdir.value.entries[i];
    match Parse(env.clock, file, orig.offset, |file|, true, ReadError)
    case Err(err) => Err(err)
    case Ok(p) =>
      var d := WithoutDescriptor(p.d, orig);
      var local := if e.chName.Some? then d.(name := Clip(e.chName.value)) else d;
      var named := if e.chName.Some? then orig.(name := Clip(e.chName.value)) else orig;
      if p.next + orig.csize > |file| then Err(PrematureEof)
      else Ok(Member(local, file[p.next..p.next + orig.csize], named.(comment := NewComment(e, orig.comment))))
  }

  function NewMember(env: Env, z: Zip, i: nat): Result<Member, ZipError>
    requires i < |z.entries| && Name(z, i).Some? && z.entries[i].source.Some?
  {
    match Pack(env, z.entries[i].source.value)
    case Err(err) => Err(err)
    case Ok(p) =>
      var d := Filled(FRESH_DIRENT.(name := NewName(z, i)), p);
      Ok(Member(d, p.data, d.(comment := NewComment(z.entries[i], []))))
  }

  /** The entry survives, and what it is made of is there. */
  predicate Writable(z: Zip, i: nat) {
    && i < |z.entries| && z.entries[i].state != Deleted && Name(z, i).Some?
    && if DataChanged(z.entries[i]) then z.entries[i].source.Some? else i < Originals(z)
  }

  lemma SurvivorsWritable(z: Zip, i: nat)
    requires Inv(z) && Named(z) && i < |z.entries| && z.entries[i].state != Deleted
    ensures Writable(z, i)
  {
    assert EntryOk(z, i);
  }

  function MemberOf(env: Env, z: Zip, file: Data, i: nat): Result<Member, ZipError>
    requires Writable(z, i)
  {
    if DataChanged(z.entries[i]) then NewMember(env, z, i) else CopiedMember(env, z, file, i)
  }

  function MembersOf(env: Env, z: Zip, file: Data, list: seq<nat>): Result<seq<Member>, ZipError>
    requires forall k | 0 <= k < |list| :: Writable(z, list[k])
  {
    if list == [] then Ok([])
    else
      match MembersOf(env, z, file, list[..|list| - 1])
      case Err(e) => Err(e)
      case Ok(ms) =>
        match MemberOf(env, z, file, list[|list| - 1])
        case Err(e) => Err(e)
        case Ok(m) => Ok(ms + [m])
  }

  // ----- the file that is written

  /** Local headers and data of the members, one behind the other. */
  function Body(clock: Clock, ms: seq<Member>): Data {
    if ms == [] then [] else Body(clock, ms[..|ms| - 1]) + MemberBytes(clock, ms[|ms| - 1])
  }

  function MemberBytes(clock: Clock, m: Member): Data {
    Encode(clock, m.local, true) + m.data
  }

  /** The central headers, which know where the local ones are. */
  function Centrals(clock: Clock, ms: seq<Member>): (ds: seq<Dirent>)
    ensures |ds| == |ms|
  {
    if ms == [] then []
    else
      var rest := ms[..|ms| - 1];
      Centrals(clock, rest) + [ms[|ms| - 1].central.(offset := ToU32(|Body(clock, rest)|))]
  }

  function Image(clock: Clock, ms: seq<Member>, comment: Short): Data {
    Body(clock, ms) + EncodeCdir(clock, Centrals(clock, ms), |Body(clock, ms)|, comment)
  }

  function ArchiveComment(z: Zip): Short {
    if TORRENT in z.flags then []
    else if z.chComment.Some? then Clip(z.chComment.value)
    else if z.cdir.Some? then z.cdir.value.comment
    else []
  }

  /** What closing needs: a name for every survivor, and no torrentzip, which is not modelled. */
  predicate Closable(z: Zip) {
    Inv(z) && Named(z) && TORRENT !in z.chFlags
  }

  datatype Closed = Untouched | Removed | Written(file: Data) | Failed(error: ZipError)

  function CloseResult(env: Env, z: Zip, file: Data): Closed
    requires Closable(z)
  {
    if !IsChanged(z) then Untouched
    else
      var list := FileList(z.entries, |z.entries|);
      if list == [] then Removed
      else
        ListWritable(z, |z.entries|);
        match MembersOf(env, z, file, list)
        case Err(e) => Failed(e)
        case Ok(ms) => Written(Image(env.clock, ms, ArchiveComment(z)))
  }

  lemma {:induction false} ListWritable(z: Zip, n: nat)
    requires Inv(z) && Named(z) && n <= |z.entries|
    ensures forall k | 0 <= k < |FileList(z.entries, n)| :: Writable(z, FileList(z.entries, n)[k])
  {
    if n > 0 {
      ListWritable(z, n - 1);
      if z.entries[n - 1].state != Deleted {
        SurvivorsWritable(z, n - 1);
      }
    }
  }

  /** The part of `zip_close` that writes one surviving entry; `i` is its index. */
  method WriteMember(env: Env, z: Zip, zp: Stream, i: nat, out: Stream) returns (r: Result<Dirent, ZipError>)
    requires zp != out && out.pos == |out.bytes| && Writable(z, i)
    modifies out, zp`pos
    ensures zp.bytes == old(zp.bytes)
    ensures var m := MemberOf(env, z, zp.bytes, i);
            if m.Err? then r == Err(m.error)
            else && r == Ok(m.value.central.(offset := ToU32(|old(out.bytes)|)))
                 && out.bytes == old(out.bytes) + MemberBytes(env.clock, m.value) && out.pos == |out.bytes|
  {
    hide Encode, Overwrite, Parse;
    var e := z.entries[i];
    var offset := ToU32(out.pos);
    ghost var base := out.bytes;
    if DataChanged(e) {
      var de := FRESH_DIRENT.(name := NewName(z, i));
      var filled := AddData(env, e.source.value, de, out);
      if filled.Err? {
        return Err(filled.error);
      }
      assert out.bytes == base + MemberBytes(env.clock, MemberOf(env, z, zp.bytes, i).value);
      r := Ok(filled.value.(comment := NewComment(e, []), offset := offset));
    } else {
      var orig := z.cdir.value.entries[i];
      zp.Seek(orig.offset);
      var de := ReadDirent(env.clock, zp, true);
      if de.Err? {
        return Err(de.error);
      }
      var local := WithoutDescriptor(de.value, orig);
      var central := orig;
      if e.chName.Some? {
        local, central := local.(name := Clip(e.chName.value)), central.(name := Clip(e.chName.value));
      }
      OverwriteEnd(out.bytes, Encode(env.clock, local, true));
      WriteDirent(env.clock, local, out, true);
      var ok := CopyData(zp, central.csize, out);
      if !ok {
        return Err(PrematureEof);
      }
      assert out.bytes == base + MemberBytes(env.clock, MemberOf(env, z, zp.bytes, i).value);
      r := Ok(central.(comment := NewComment(e, orig.comment), offset := offset));
    }
  }

  /** `zip_close`, up to renaming the temporary file; `zp` is the archive as it was opened. */
  method Close(env: Env, za: Archive, zp: Stream) returns (r: Closed)
    requires Closable(za.View())
    modifies zp`pos
    ensures r == CloseResult(env, za.View(), zp.bytes)
  {
    ghost var z := za.View();
    var changed, survivors := za.Changed();
    if !changed {
      return Untouched;
    }
    if survivors == 0 {
      return Removed;
    }
    var list := ListSurvivors(za);
    ListWritable(z, |z.entries|);
    r := WriteFile(env, za.View(), zp, list);
  }

  method ListSurvivors(za: Archive) returns (list: seq<nat>)
    ensures list == FileList(za.entries, |za.entries|)
  {
    list := [];
    for i := 0 to |za.entries|
      invariant list == FileList(za.entries, i)
    {
      if za.entries[i].state == Deleted {
        continue;
      }
      list := list + [i];
    }
  }

  method WriteFile(env: Env, z: Zip, zp: Stream, list: seq<nat>) returns (r: Closed)
    requires forall k | 0 <= k < |list| :: Writable(z, list[k])
    modifies zp`pos
    ensures r == match MembersOf(env, z, zp.bytes, list)
                 case Err(e) => Failed(e)
                 case Ok(ms) => Written(Image(env.clock, ms, ArchiveComment(z)))
  {
    hide MemberOf, MemberBytes, Writable;
    var out := new Stream([]);
    var centrals: seq<Dirent> := [];
    ghost var ms: seq<Member> := [];
    for j := 0 to |list|
      invariant out.pos == |out.bytes| && fresh(out) && zp.bytes == old(zp.bytes)
      invariant MembersOf(env, z, zp.bytes, list[..j]) == Ok(ms)
      invariant out.bytes == Body(env.clock, ms) && centrals == Centrals(env.clock, ms)
    {
      ghost var m := MemberOf(env, z, zp.bytes, list[j]);
      assert list[..j + 1][..j] == list[..j];
      var d := WriteMember(env, z, zp, list[j], out);
      if d.Err? {
        FirstFailure(env, z, zp.bytes, list, j + 1);
        return Failed(d.error);
      }
      centrals := centrals + [d.value];
      assert (ms + [m.value])[..|ms|] == ms;
      ms := ms + [m.value];
    }
    assert list[..|list|] == list;
    WriteCdir(env.clock, centrals, ArchiveComment(z), out);
    r := Written(out.bytes);
  }

  /** Once a member fails, the whole list fails with its error. */
  lemma {:induction false} FirstFailure(env: Env, z: Zip, file: Data, list: seq<nat>, j: nat)
    requires forall k | 0 <= k < |list| :: Writable(z, list[k])
    requires j <= |list| && MembersOf(env, z, file, list[..j]).Err?
    ensures MembersOf(env, z, file, list) == MembersOf(env, z, file, list[..j])
  {
    if j == |list| {
      assert list[..j] == list;
    } else {
      var rest := list[..|list| - 1];
      assert rest[..j] == list[..j];
      FirstFailure(env, z, file, rest, j);
    }
  }
}
