/**
 The central directory: writing it, finding and reading it, and checking it
 against the local headers (PKWARE APPNOTE.TXT, sections 4.3.12 and 4.3.16).
 */
module ZipDirectory {
  import opened Results
  import opened ZipBytes
  import opened ZipFormat

  datatype Cdir = Cdir(entries: seq<Dirent>, size: U32, offset: U32, comment: Short)

  // ----- writing

  /** The central headers of the entries from the `i`-th on. */
  function EncodeEntries(clock: Clock, es: seq<Dirent>, i: nat): Data
    requires i <= |es|
    decreases |es| - i
  {
    if i == |es| then [] else Encode(clock, es[i], false) + EncodeEntries(clock, es, i + 1)
  }

  /** The end-of-central-directory record behind its magic number. */
  const EOCD_COLUMNS: seq<nat> := [4, 2, 2, 4, 4, 2]

  lemma EocdWidth()
    ensures Layout(EOCD_COLUMNS) && Width(EOCD_COLUMNS, 0) == 18 && Width(EOCD_COLUMNS, 1) == 14
  {
    var ws := EOCD_COLUMNS;
    assert Width(ws, 6) == 0 && Width(ws, 5) == 2 && Width(ws, 4) == 6 && Width(ws, 3) == 10 && Width(ws, 2) == 12;
  }

  function EocdValues(count: nat, size: U32, offset: U32, comment: Short): (vs: seq<U32>)
    ensures FitsAll(EOCD_COLUMNS, vs)
  {
    [0, ToU16(count), ToU16(count), size, offset, |comment|]
  }

  function EncodeEocd(count: nat, size: U32, offset: U32, comment: Short): (s: Data)
    ensures |s| == EOCDLEN + |comment|
  {
    EocdWidth();
    EOCD_MAGIC + PutFields(EOCD_COLUMNS, EocdValues(count, size, offset, comment), 0) + comment
  }

  /** A whole directory that starts at stream position `at`. */
  function EncodeCdir(clock: Clock, es: seq<Dirent>, at: nat, comment: Short): Data {
    var body := EncodeEntries(clock, es, 0);
    body + EncodeEocd(|es|, ToU32(at + |body| - ToU32(at)), ToU32(at), comment)
  }

  /** `_zip_cdir_write` */
  method WriteCdir(clock: Clock, es: seq<Dirent>, comment: Short, out: Stream)
    requires out.pos == |out.bytes|
    modifies out
    ensures out.bytes == old(out.bytes) + EncodeCdir(clock, es, old(out.pos), comment)
    ensures out.pos == |out.bytes|
  {
    hide Encode, EncodedSize, Overwrite, EncodeEocd;
    var offset := ToU32(out.pos);
    ghost var base, at := out.bytes, out.pos;
    for i := 0 to |es|
      invariant out.pos == |out.bytes|
      invariant out.bytes + EncodeEntries(clock, es, i) == base + EncodeEntries(clock, es, 0)
    {
      ghost var head := Encode(clock, es[i], false);
      assert out.bytes + EncodeEntries(clock, es, i) == out.bytes + head + EncodeEntries(clock, es, i + 1);
      OverwriteEnd(out.bytes, head);
      WriteDirent(clock, es[i], out, false);
    }
    ghost var body := EncodeEntries(clock, es, 0);
    assert out.bytes == base + body;
    WriteEocd(|es|, ToU32(out.pos - offset), offset, comment, out);
  }

  method WriteEocd(count: nat, size: U32, offset: U32, comment: Short, out: Stream)
    requires out.pos == |out.bytes|
    modifies out
    ensures out.bytes == old(out.bytes) + EncodeEocd(count, size, offset, comment)
    ensures out.pos == |out.bytes|
  {
    hide Overwrite, PutFields;
    ghost var base, start := out.bytes, out.pos;
    OverwriteNothing(base, start);
    ghost var w := out.Put(base, start, [], EOCD_MAGIC);
    w := out.PutRecord(EOCD_COLUMNS, EocdValues(count, size, offset, comment), base, start, w);
    w := out.Put(base, start, w, comment);
    assert w == EncodeEocd(count, size, offset, comment);
    OverwriteEnd(base, w);
  }

  // ----- reading

  function ParseEntries(clock: Clock, s: Data, at: nat, limit: nat, n: nat, short: ZipError)
    : Result<seq<Dirent>, ZipError>
    requires limit <= |s|
    decreases n
  {
    if n == 0 then Ok([])
    else
      match Parse(clock, s, at, limit, false, short)
      case Err(e) => Err(e)
      case Ok(p) =>
        match ParseEntries(clock, s, p.next, limit, n - 1, short)
        case Err(e) => Err(e)
        case Ok(rest) => Ok([p.d] + rest)
  }

  datatype Eocd = Eocd(count: U16, size: U32, offset: U32, comment: Short)

  /** The record at `eocd`, which may be followed by at most the rest of the buffer. */
  function ParseEocd(buf: Data, eocd: nat, checkCons: bool): Result<Eocd, ZipError>
    requires eocd <= |buf|
  {
    var comlen := |buf| - eocd - EOCDLEN;
    if comlen < 0 then Err(NoZip)
    else if buf[eocd..eocd + 4] != EOCD_MAGIC then Err(NoZip)
    else if buf[eocd + 4..eocd + 8] != [0, 0, 0, 0] then Err(MultiDisk)
    else
      EocdWidth();
      var vs := GetFields(EOCD_COLUMNS, buf, eocd + 8, 1);
      if comlen < vs[4] || vs[1] != vs[0] then Err(NoZip)
      else if checkCons && comlen != vs[4] then Err(Inconsistent)
      else Ok(Eocd(vs[1], vs[2], vs[3], buf[eocd + EOCDLEN..eocd + EOCDLEN + vs[4]]))
  }

  /** What `_zip_readcdir` finds; `buf` is the end of `file`. */
  function ParseCdir(clock: Clock, file: Data, buf: Data, eocd: nat, checkCons: bool): Result<Cdir, ZipError>
    requires eocd <= |buf|
  {
    match ParseEocd(buf, eocd, checkCons)
    case Err(e) => Err(e)
    case Ok(end) =>
      var es := if end.size < eocd
                then ParseEntries(clock, buf, eocd - end.size, eocd, end.count, NoZip)
                else ParseEntries(clock, file, end.offset, |file|, end.count, ReadError);
      match es
      case Err(e) => Err(e)
      case Ok(entries) => Ok(Cdir(entries, end.size, end.offset, end.comment))
  }

  function Prepend(es: seq<Dirent>, rest: Result<seq<Dirent>, ZipError>): Result<seq<Dirent>, ZipError> {
    if rest.Ok? then Ok(es + rest.value) else rest
  }

  /** `_zip_readcdir` */
  method ReadCdir(clock: Clock, fp: Stream, buf: Data, eocd: nat, checkCons: bool) returns (r: Result<Cdir, ZipError>)
    requires eocd <= |buf|
    modifies fp`pos
    ensures r == ParseCdir(clock, fp.bytes, buf, eocd, checkCons)
  {
    hide ParseEocd, ParseEntries;
    var end := ParseEocd(buf, eocd, checkCons);
    if end.Err? {
      return Err(end.error);
    }
    var size, offset := end.value.size, end.value.offset;
    var es: Result<seq<Dirent>, ZipError>;
    if size < eocd {
      es := ReadFromBuffer(clock, buf, eocd - size, eocd, end.value.count);
    } else {
      fp.Seek(offset);
      es := ReadFromFile(clock, fp, end.value.count);
    }
    if es.Err? {
      return Err(es.error);
    }
    r := Ok(Cdir(es.value, size, offset, end.value.comment));
  }

  /** The loop over the entries, as it runs when they are in the buffer. */
  method ReadFromBuffer(clock: Clock, buf: Data, start: nat, eocd: nat, n: nat)
    returns (r: Result<seq<Dirent>, ZipError>)
    requires start <= eocd <= |buf|
    ensures r == ParseEntries(clock, buf, start, eocd, n, NoZip)
  {
    hide Parse;
    var cdp: nat, entries: seq<Dirent> := start, [];
    ghost var all := ParseEntries(clock, buf, start, eocd, n, NoZip);
    assert all == Prepend([], all) by { PrependSteps([], FRESH_DIRENT, all); }
    for i := 0 to n
      invariant cdp <= eocd
      invariant all == Prepend(entries, ParseEntries(clock, buf, cdp, eocd, n - i, NoZip))
    {
      var p := ReadDirentFrom(clock, buf, cdp, eocd);
      if p.Err? {
        return Err(p.error);
      }
      PrependSteps(entries, p.value.d, ParseEntries(clock, buf, p.value.next, eocd, n - i - 1, NoZip));
      entries, cdp := entries + [p.value.d], p.value.next;
    }
    assert entries + [] == entries;
    r := Ok(entries);
  }

  /** The same loop as it runs when they are read from the file. */
  method ReadFromFile(clock: Clock, fp: Stream, n: nat) returns (r: Result<seq<Dirent>, ZipError>)
    modifies fp`pos
    ensures r == ParseEntries(clock, fp.bytes, old(fp.pos), |fp.bytes|, n, ReadError)
  {
    hide Parse;
    var entries: seq<Dirent> := [];
    ghost var all := ParseEntries(clock, fp.bytes, fp.pos, |fp.bytes|, n, ReadError);
    assert all == Prepend([], all) by { PrependSteps([], FRESH_DIRENT, all); }
    for i := 0 to n
      invariant all == Prepend(entries, ParseEntries(clock, fp.bytes, fp.pos, |fp.bytes|, n - i, ReadError))
    {
      var p := ReadDirent(clock, fp, false);
      if p.Err? {
        return Err(p.error);
      }
      PrependSteps(entries, p.value, ParseEntries(clock, fp.bytes, fp.pos, |fp.bytes|, n - i - 1, ReadError));
      entries := entries + [p.value];
    }
    assert entries + [] == entries;
    r := Ok(entries);
  }

  lemma PrependSteps(es: seq<Dirent>, d: Dirent, rest: Result<seq<Dirent>, ZipError>)
    ensures Prepend([], rest) == rest
    ensures Prepend(es, Prepend([d], rest)) == Prepend(es + [d], rest)
  {
    if rest.Ok? {
      assert [] + rest.value == rest.value;
      assert es + ([d] + rest.value) == es + [d] + rest.value;
    }
  }

  // ----- what is written is read back

  function StoredAll(clock: Clock, es: seq<Dirent>): (r: seq<Dirent>)
    ensures |r| == |es|
  {
    seq(|es|, i requires 0 <= i < |es| => Stored(clock, es[i], false))
  }

  lemma {:induction false} EntriesReadBack(clock: Clock, es: seq<Dirent>, i: nat, s: Data, at: nat, limit: nat,
                                           short: ZipError)
    requires i <= |es|
    requires at + |EncodeEntries(clock, es, i)| <= limit <= |s|
    requires s[at..at + |EncodeEntries(clock, es, i)|] == EncodeEntries(clock, es, i)
    ensures ParseEntries(clock, s, at, limit, |es| - i, short) == Ok(StoredAll(clock, es)[i..])
    decreases |es| - i
  {
    hide Encode, Parse, Stored;
    if i == |es| {
      assert StoredAll(clock, es)[i..] == [];
    } else {
      var head, rest := Encode(clock, es[i], false), EncodeEntries(clock, es, i + 1);
      Pieces(s, at, head, rest);
      EncodeParse(clock, es[i], false, s, at, limit, short);
      EntriesReadBack(clock, es, i + 1, s, at + |head|, limit, short);
      assert StoredAll(clock, es)[i..] == [StoredAll(clock, es)[i]] + StoredAll(clock, es)[i + 1..];
    }
  }

  lemma EocdReadBack(count: U16, size: U32, offset: U32, comment: Short, buf: Data, eocd: nat, checkCons: bool)
    requires eocd + EOCDLEN + |comment| <= |buf|
    requires buf[eocd..eocd + EOCDLEN + |comment|] == EncodeEocd(count, size, offset, comment)
    requires checkCons ==> eocd + EOCDLEN + |comment| == |buf|
    ensures ParseEocd(buf, eocd, checkCons) == Ok(Eocd(count, size, offset, comment))
  {
    hide PutFields, GetFields, ParseEocd, Width;
    EocdWidth();
    EocdPieces(EOCD_COLUMNS, EocdValues(count, size, offset, comment), comment, buf, eocd);
    EocdAccepted(buf, eocd, checkCons, EocdValues(count, size, offset, comment)[1..]);
  }

  lemma EocdAccepted(buf: Data, eocd: nat, checkCons: bool, vs: seq<U32>)
    requires Layout(EOCD_COLUMNS) && Width(EOCD_COLUMNS, 1) == 14
    requires eocd + EOCDLEN <= |buf| && vs == GetFields(EOCD_COLUMNS, buf, eocd + 8, 1)
    requires buf[eocd..eocd + 4] == EOCD_MAGIC && buf[eocd + 4..eocd + 8] == [0, 0, 0, 0]
    requires vs[0] == vs[1] && eocd + EOCDLEN + vs[4] <= |buf|
    requires checkCons ==> eocd + EOCDLEN + vs[4] == |buf|
    ensures ParseEocd(buf, eocd, checkCons)
         == Ok(Eocd(vs[1], vs[2], vs[3], buf[eocd + EOCDLEN..eocd + EOCDLEN + vs[4]]))
  {
    hide GetFields;
  }

  lemma EocdPieces(ws: seq<nat>, vs: seq<U32>, comment: Short, buf: Data, eocd: nat)
    requires FitsAll(ws, vs) && |ws| > 1 && ws[0] == 4 && vs[0] == 0
    requires Width(ws, 0) == 18 && eocd + EOCDLEN + |comment| <= |buf|
    requires buf[eocd..eocd + EOCDLEN + |comment|] == EOCD_MAGIC + PutFields(ws, vs, 0) + comment
    ensures buf[eocd..eocd + 4] == EOCD_MAGIC && buf[eocd + 4..eocd + 8] == [0, 0, 0, 0]
    ensures GetFields(ws, buf, eocd + 8, 1) == vs[1..]
    ensures buf[eocd + EOCDLEN..eocd + EOCDLEN + |comment|] == comment
  {
    var fields, rest := PutFields(ws, vs, 0), PutFields(ws, vs, 1);
    Pieces(buf, eocd, EOCD_MAGIC + fields, comment);
    Pieces(buf, eocd, EOCD_MAGIC, fields);
    assert fields == Le4(0) + rest;
    Pieces(buf, eocd + 4, Le4(0), rest);
    FieldsReadBack(ws, vs, 1, buf, eocd + 8);
  }

  /** `file` ends with `buf`, and `at` is a position in both. */
  lemma InTail(file: Data, buf: Data, at: nat, n: nat)
    requires |buf| <= |file| && buf == file[|file| - |buf|..]
    requires |file| - |buf| <= at && at + n <= |file|
    ensures buf[at - (|file| - |buf|)..at - (|file| - |buf|) + n] == file[at..at + n]
  {
  }

  /** The end record of a directory, found in the end of a file. */
  lemma EocdFound(file: Data, at: nat, body: Data, end: Data, buf: Data)
    requires at + |body| + |end| <= |file| && file[at..at + (|body| + |end|)] == body + end
    requires |buf| <= |file| && buf == file[|file| - |buf|..] && |file| - |buf| <= at + |body|
    ensures file[at..at + |body|] == body
    ensures var eocd := at + |body| - (|file| - |buf|);
            buf[eocd..eocd + |end|] == end && (|body| <= eocd ==> buf[eocd - |body|..eocd] == body)
  {
    Pieces(file, at, body, end);
    InTail(file, buf, at + |body|, |end|);
    if |body| <= at + |body| - (|file| - |buf|) {
      InTail(file, buf, at, |body|);
    }
  }

  /**
     Reading the directory that was written at `at`, with any bytes before and
     behind it, gives back its entries and its comment. `buf` is any end of the
     file that holds the end record: the directory itself may begin before it.
     */
  lemma CdirRoundTrip(clock: Clock, es: seq<Dirent>, comment: Short, file: Data, at: nat, buf: Data, checkCons: bool)
    requires |es| < 0x1_0000 && |file| < 0x1_0000_0000
    requires at + |EncodeCdir(clock, es, at, comment)| <= |file|
    requires file[at..at + |EncodeCdir(clock, es, at, comment)|] == EncodeCdir(clock, es, at, comment)
    requires |buf| <= |file| && buf == file[|file| - |buf|..]
    requires |file| - |buf| <= at + |EncodeEntries(clock, es, 0)|
    requires checkCons ==> at + |EncodeCdir(clock, es, at, comment)| == |file|
    ensures var size := |EncodeEntries(clock, es, 0)|;
            ParseCdir(clock, file, buf, at + size - (|file| - |buf|), checkCons)
            == Ok(Cdir(StoredAll(clock, es), size, at, comment))
  {
    hide EncodeEocd, EncodeCdir, ParseEocd, ParseEntries, ParseCdir, EncodeEntries, StoredAll;
    var body := EncodeEntries(clock, es, 0);
    CdirParts(clock, es, at, comment);
    var end := EncodeEocd(|es|, |body|, at, comment);
    EocdFound(file, at, body, end, buf);
    var eocd := at + |body| - (|file| - |buf|);
    EocdReadBack(|es|, |body|, at, comment, buf, eocd, checkCons);
    EntriesReadEitherWay(clock, es, file, at, buf, eocd);
    CdirOfParts(clock, file, buf, eocd, checkCons, Eocd(|es|, |body|, at, comment), StoredAll(clock, es));
  }

  lemma EntriesReadEitherWay(clock: Clock, es: seq<Dirent>, file: Data, at: nat, buf: Data, eocd: nat)
    requires at + |EncodeEntries(clock, es, 0)| <= |file| && eocd <= |buf|
    requires file[at..at + |EncodeEntries(clock, es, 0)|] == EncodeEntries(clock, es, 0)
    requires |EncodeEntries(clock, es, 0)| <= eocd
             ==> buf[eocd - |EncodeEntries(clock, es, 0)|..eocd] == EncodeEntries(clock, es, 0)
    ensures var size, all := |EncodeEntries(clock, es, 0)|, Ok(StoredAll(clock, es));
            if size < eocd then ParseEntries(clock, buf, eocd - size, eocd, |es|, NoZip) == all
            else ParseEntries(clock, file, at, |file|, |es|, ReadError) == all
  {
    hide EncodeEntries, ParseEntries, StoredAll;
    var size := |EncodeEntries(clock, es, 0)|;
    assert StoredAll(clock, es)[0..] == StoredAll(clock, es);
    if size < eocd {
      EntriesReadBack(clock, es, 0, buf, eocd - size, eocd, NoZip);
    } else {
      EntriesReadBack(clock, es, 0, file, at, |file|, ReadError);
    }
  }

  lemma CdirParts(clock: Clock, es: seq<Dirent>, at: nat, comment: Short)
    requires |es| < 0x1_0000 && at + |EncodeCdir(clock, es, at, comment)| < 0x1_0000_0000
    ensures at + |EncodeEntries(clock, es, 0)| < 0x1_0000_0000
    ensures var body := EncodeEntries(clock, es, 0);
            EncodeCdir(clock, es, at, comment) == body + EncodeEocd(|es|, |body|, at, comment)
  {
    hide EncodeEntries, EncodeEocd;
  }

  lemma CdirOfParts(clock: Clock, file: Data, buf: Data, eocd: nat, checkCons: bool, end: Eocd, entries: seq<Dirent>)
    requires eocd <= |buf| && ParseEocd(buf, eocd, checkCons) == Ok(end)
    requires end.size < eocd ==> ParseEntries(clock, buf, eocd - end.size, eocd, end.count, NoZip) == Ok(entries)
    requires end.size >= eocd ==> ParseEntries(clock, file, end.offset, |file|, end.count, ReadError) == Ok(entries)
    ensures ParseCdir(clock, file, buf, eocd, checkCons) == Ok(Cdir(entries, end.size, end.offset, end.comment))
  {
    hide ParseEocd, ParseEntries;
  }

  // ----- consistency

  predicate HasDescriptor(d: Dirent) { d.flags / DATA_DESCRIPTOR % 2 == 1 }

  predicate NoSizes(d: Dirent) { d.crc == 0 && d.csize == 0 && d.usize == 0 }

  predicate SameSizes(a: Dirent, b: Dirent) { a.crc == b.crc && a.csize == b.csize && a.usize == b.usize }

  /** `_zip_headercomp` returns 0; a NULL name is an empty one here. */
  predicate HeaderComp(h1: Dirent, local1: bool, h2: Dirent, local2: bool) {
    && h1.needed == h2.needed && h1.compMethod == h2.compMethod && h1.lastMod == h2.lastMod
    && |h1.name| == |h2.name| && h1.name != [] && h2.name != [] && h1.name == h2.name
    && (HasDescriptor(h1) && local1 ==> NoSizes(h1))
    && (HasDescriptor(h2) && local2 ==> NoSizes(h2))
    && ((!HasDescriptor(h1) || !local1) && (!HasDescriptor(h2) || !local2) ==> SameSizes(h1, h2))
    && (local1 == local2 ==> h1.extra == h2.extra)
    && (local1 || local2
        || (h1.madeBy == h2.madeBy && h1.disk == h2.disk && h1.intAttr == h2.intAttr
            && h1.extAttr == h2.extAttr && h1.offset == h2.offset && h1.comment == h2.comment))
  }

  /**
     What the check asks of a central header and its local one: where the local one
     leaves its figures to a data descriptor they are zero there, and otherwise
     they are the same. The extra fields may differ.
     */
  lemma CentralLocalIff(central: Dirent, local: Dirent)
    ensures HeaderComp(central, false, local, true)
       <==> && central.needed == local.needed && central.compMethod == local.compMethod
            && central.lastMod == local.lastMod && central.name == local.name != []
            && if local.flags / 8 % 2 == 1 then local.crc == local.csize == local.usize == 0
               else (central.crc, central.csize, central.usize) == (local.crc, local.csize, local.usize)
  {
  }

  /** Where `_zip_checkcons` thinks an entry ends: without its local extra field, in 32 bits. */
  function Reach(d: Dirent): U32 {
    ToU32(d.offset + d.csize + |d.name| + LENTRYSIZE)
  }

  /** The local header of an entry can be read and agrees with the entry. */
  predicate LocalAgrees(clock: Clock, file: Data, d: Dirent) {
    var p := Parse(clock, file, d.offset, |file|, true, ReadError);
    p.Ok? && HeaderComp(d, false, p.value.d, true)
  }

  function Agrees(clock: Clock, file: Data): Dirent -> bool {
    d => LocalAgrees(clock, file, d)
  }

  /** The check of the entries from the `i`-th on, `lo` and `hi` being the least and greatest positions so far. */
  function ScoreFrom(agrees: Dirent -> bool, cd: Cdir, i: nat, lo: U32, hi: U32): int
    requires i <= |cd.entries|
    decreases |cd.entries| - i
  {
    if i == |cd.entries| then ToI32(ToU32(hi - lo))
    else
      var d := cd.entries[i];
      var lo' := if d.offset < lo then d.offset else lo;
      var hi' := if Reach(d) > hi then Reach(d) else hi;
      if lo' > cd.offset || hi' > cd.offset || !agrees(d) then -1
      else ScoreFrom(agrees, cd, i + 1, lo', hi')
  }

  function FirstOffset(cd: Cdir): U32 { if cd.entries == [] then 0 else cd.entries[0].offset }

  function Score(clock: Clock, file: Data, cd: Cdir): int {
    ScoreFrom(Agrees(clock, file), cd, 0, FirstOffset(cd), FirstOffset(cd))
  }

  /** `_zip_checkcons` */
  method CheckCons(clock: Clock, fp: Stream, cd: Cdir) returns (score: int)
    modifies fp`pos
    ensures score == Score(clock, fp.bytes, cd)
  {
    hide Parse, HeaderComp, Reach;
    var lo: U32, hi: U32 := 0, 0;
    if |cd.entries| > 0 {
      lo, hi := cd.entries[0].offset, cd.entries[0].offset;
    }
    for i := 0 to |cd.entries|
      invariant ScoreFrom(Agrees(clock, fp.bytes), cd, i, lo, hi) == Score(clock, fp.bytes, cd)
    {
      var d := cd.entries[i];
      if d.offset < lo {
        lo := d.offset;
      }
      if lo > cd.offset {
        return -1;
      }
      if Reach(d) > hi {
        hi := Reach(d);
      }
      if hi > cd.offset {
        return -1;
      }
      fp.Seek(d.offset);
      var local := ReadDirent(clock, fp, true);
      if local.Err? {
        return -1;
      }
      if !HeaderComp(d, false, local.value, true) {
        return -1;
      }
    }
    score := ToI32(ToU32(hi - lo));
  }

  predicate Plausible(agrees: Dirent -> bool, cd: Cdir, d: Dirent) {
    Reach(d) <= cd.offset && agrees(d)
  }

  /** The least offset and the greatest reach of the entries from the `i`-th on, and of what was seen before. */
  function Lowest(cd: Cdir, i: nat, lo: U32): (r: U32)
    requires i <= |cd.entries|
    ensures r <= lo
    decreases |cd.entries| - i
  {
    if i == |cd.entries| then lo
    else Lowest(cd, i + 1, if cd.entries[i].offset < lo then cd.entries[i].offset else lo)
  }

  function Highest(cd: Cdir, i: nat, hi: U32): (r: U32)
    requires i <= |cd.entries|
    ensures hi <= r
    decreases |cd.entries| - i
  {
    if i == |cd.entries| then hi
    else Highest(cd, i + 1, if Reach(cd.entries[i]) > hi then Reach(cd.entries[i]) else hi)
  }

  lemma {:induction false} LowestIs(cd: Cdir, i: nat, lo: U32)
    requires i <= |cd.entries|
    ensures var r := Lowest(cd, i, lo);
            && (forall k | i <= k < |cd.entries| :: r <= cd.entries[k].offset)
            && (r == lo || exists k | i <= k < |cd.entries| :: r == cd.entries[k].offset)
    decreases |cd.entries| - i
  {
    if i < |cd.entries| {
      LowestIs(cd, i + 1, if cd.entries[i].offset < lo then cd.entries[i].offset else lo);
    }
  }

  lemma {:induction false} HighestIs(cd: Cdir, i: nat, hi: U32)
    requires i <= |cd.entries|
    ensures var r := Highest(cd, i, hi);
            && (forall k | i <= k < |cd.entries| :: Reach(cd.entries[k]) <= r)
            && (r == hi || exists k | i <= k < |cd.entries| :: r == Reach(cd.entries[k]))
    decreases |cd.entries| - i
  {
    hide Reach;
    if i < |cd.entries| {
      HighestIs(cd, i + 1, if Reach(cd.entries[i]) > hi then Reach(cd.entries[i]) else hi);
    }
  }

  lemma {:induction false} ScoreFromMeaning(agrees: Dirent -> bool, cd: Cdir, i: nat, lo: U32, hi: U32)
    requires i <= |cd.entries| && lo <= hi <= cd.offset
    ensures ScoreFrom(agrees, cd, i, lo, hi)
         == if forall k | i <= k < |cd.entries| :: Plausible(agrees, cd, cd.entries[k])
            then ToI32(Highest(cd, i, hi) - Lowest(cd, i, lo)) else -1
    decreases |cd.entries| - i
  {
    hide Reach;
    if i < |cd.entries| {
      var d := cd.entries[i];
      if Plausible(agrees, cd, d) {
        ScoreFromMeaning(agrees, cd, i + 1, if d.offset < lo then d.offset else lo,
                         if Reach(d) > hi then Reach(d) else hi);
      }
    }
  }

  /** How far the entries of a directory stretch. */
  function Span(cd: Cdir): U32 {
    Highest(cd, 0, FirstOffset(cd)) - Lowest(cd, 0, FirstOffset(cd))
  }

  /** No entry starts or ends behind the directory, and each agrees with its local header. */
  ghost predicate AllPlausible(clock: Clock, file: Data, cd: Cdir) {
    && FirstOffset(cd) <= cd.offset
    && forall k | 0 <= k < |cd.entries| :: Plausible(Agrees(clock, file), cd, cd.entries[k])
  }

  /**
     The score of a directory is how far its entries stretch if they are all
     plausible, and -1 otherwise. As an `int` it turns negative from 2 GB on, so
     the check accepts exactly the plausible directories below that.
     */
  lemma ScoreMeaning(clock: Clock, file: Data, cd: Cdir)
    ensures Score(clock, file, cd) == if AllPlausible(clock, file, cd) then ToI32(Span(cd)) else -1
    ensures Score(clock, file, cd) >= 0 <==> AllPlausible(clock, file, cd) && Span(cd) < 0x8000_0000
    ensures cd.offset < 0x8000_0000 ==> Score(clock, file, cd) >= -1
  {
    hide LocalAgrees, Reach;
    var first := FirstOffset(cd);
    HighestIs(cd, 0, first);
    if first <= cd.offset {
      ScoreFromMeaning(Agrees(clock, file), cd, 0, first, first);
    } else {
      assert Score(clock, file, cd) == -1;
    }
  }
}
