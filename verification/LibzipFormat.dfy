/**
 Directory entries of libzip and their two on-disk forms: the local file header
 (PKWARE APPNOTE.TXT, section 4.3.7) and the central directory header (section
 4.3.12). Dates and times are in the MS-DOS form of section 4.4.6.
 */
module ZipFormat {
  import opened Results
  import opened ZipBytes

  const LENTRYSIZE := 30
  const CDENTRYSIZE := 46
  const EOCDLEN := 22
  const MAXCOMLEN := 65536
  const CDBUFSIZE := MAXCOMLEN + EOCDLEN
  const BUFSIZE := 8192
  const LOCAL_MAGIC: Data := [0x50, 0x4B, 3, 4]
  const CENTRAL_MAGIC: Data := [0x50, 0x4B, 1, 2]
  const EOCD_MAGIC: Data := [0x50, 0x4B, 5, 6]
  const DATA_DESCRIPTOR := 8

  datatype ZipError =
    | NoZip | MultiDisk | ReadError | Inconsistent | CrcError | PrematureEof
    | InvalidArgument | NameExists | EntryDeleted | NoEntry | SourceError

  type Short = s: Data | |s| < 0x1_0000

  /** `struct tm`, as far as MS-DOS times use it: `year` counts from 1900, `mon` from 0. */
  datatype Tm = Tm(year: int, mon: int, mday: int, hour: int, min: int, sec: int)

  /** The C library's `localtime` and `mktime`, for one fixed time zone. */
  datatype Clock = Clock(localtime: int -> Tm, mktime: Tm -> int)

  datatype Dirent = Dirent(
    madeBy: U16, needed: U16, flags: U16, compMethod: U16, lastMod: int,
    crc: U32, csize: U32, usize: U32,
    name: Short, extra: Short, comment: Short,
    disk: U16, intAttr: U16, extAttr: U32, offset: U32)

  /** `_zip_dirent_init` */
  const FRESH_DIRENT := Dirent(0, 20, 0, 0, 0, 0, 0, 0, [], [], [], 0, 0, 0, 0)

  // ----- MS-DOS date and time

  function DosDate(tm: Tm): U16 {
    ToU16((tm.year + 1900 - 1980) * 512 + (tm.mon + 1) * 32 + tm.mday)
  }

  function DosTime(tm: Tm): U16 {
    ToU16(tm.hour * 2048 + tm.min * 32 + tm.sec / 2)
  }

  /** The broken-down time that `_zip_d2u_time` hands to `mktime`. */
  function FromDos(time: U16, date: U16): Tm {
    Tm(date / 512 % 128 + 1980 - 1900, date / 32 % 16 - 1, date % 32,
       time / 2048 % 32, time / 32 % 64, time * 2 % 64)
  }

  /** A broken-down time as `localtime` gives it, between 1980 and 2107. */
  predicate DosRange(tm: Tm) {
    && 80 <= tm.year <= 207 && 0 <= tm.mon < 12 && 1 <= tm.mday <= 31
    && 0 <= tm.hour < 24 && 0 <= tm.min < 60 && 0 <= tm.sec <= 61
  }

  lemma DateBits(y: int, m: int, d: int)
    requires 0 <= y < 128 && 0 <= m < 16 && 0 <= d < 32
    ensures var x := y * 512 + m * 32 + d;
            0 <= x < 0x1_0000 && x / 512 % 128 == y && x / 32 % 16 == m && x % 32 == d
  {
    var x := y * 512 + m * 32 + d;
    assert x / 512 == y;
    assert x / 32 == y * 16 + m;
  }

  lemma TimeBits(h: int, m: int, s: int)
    requires 0 <= h < 32 && 0 <= m < 64 && 0 <= s < 32
    ensures var x := h * 2048 + m * 32 + s;
            0 <= x < 0x1_0000 && x / 2048 % 32 == h && x / 32 % 64 == m && x * 2 % 64 == s * 2
  {
    var x := h * 2048 + m * 32 + s;
    assert x / 2048 == h;
    assert x / 32 == h * 64 + m;
    assert x * 2 == (h * 64 + m) * 64 + s * 2;
  }

  /** Four bytes hold every time of that range, except that odd seconds lose one. */
  lemma DosRoundTrip(tm: Tm)
    requires DosRange(tm)
    ensures FromDos(DosTime(tm), DosDate(tm)) == tm.(sec := tm.sec - tm.sec % 2)
  {
    hide DosDate, DosTime;
    DateFromDos(tm);
    TimeFromDos(tm);
  }

  lemma DateFromDos(tm: Tm)
    requires DosRange(tm)
    ensures var date := DosDate(tm);
            date / 512 % 128 + 1980 - 1900 == tm.year && date / 32 % 16 - 1 == tm.mon && date % 32 == tm.mday
  {
    hide DosDate;
    DosDateOf(tm);
    DateBits(tm.year - 80, tm.mon + 1, tm.mday);
  }

  lemma DosDateOf(tm: Tm)
    requires DosRange(tm)
    ensures DosDate(tm) == (tm.year - 80) * 512 + (tm.mon + 1) * 32 + tm.mday
  {
  }

  lemma TimeFromDos(tm: Tm)
    requires DosRange(tm)
    ensures var time := DosTime(tm);
            time / 2048 % 32 == tm.hour && time / 32 % 64 == tm.min && time * 2 % 64 == tm.sec - tm.sec % 2
  {
    TimeBits(tm.hour, tm.min, tm.sec / 2);
  }

  function StoredTime(clock: Clock, t: int): int {
    var tm := clock.localtime(t);
    clock.mktime(FromDos(DosTime(tm), DosDate(tm)))
  }

  // ----- the fixed part of a header

  /** The fields behind the magic number, and how wide they are. */
  function Columns(local: bool): seq<nat> {
    if local then [2, 2, 2, 2, 2, 4, 4, 4, 2, 2]
    else [2, 2, 2, 2, 2, 2, 4, 4, 4, 2, 2, 2, 2, 2, 4, 4]
  }

  function HeadSize(local: bool): nat { if local then LENTRYSIZE else CDENTRYSIZE }

  function Magic(local: bool): Data { if local then LOCAL_MAGIC else CENTRAL_MAGIC }

  lemma ColumnsWidth(local: bool)
    ensures Layout(Columns(local)) && 4 + Width(Columns(local), 0) == HeadSize(local)
  {
    hide Width;
    if local { LocalWidth(); } else { CentralWidth(); }
  }

  lemma LocalWidth()
    ensures Width(Columns(true), 0) == 26
  {
    hide Width;
    var ws := Columns(true);
    NoWidth(ws);
    WidthStep(ws, 9); WidthStep(ws, 8); WidthStep(ws, 7); WidthStep(ws, 6); WidthStep(ws, 5);
    WidthStep(ws, 4); WidthStep(ws, 3); WidthStep(ws, 2); WidthStep(ws, 1); WidthStep(ws, 0);
  }

  lemma CentralWidth()
    ensures Width(Columns(false), 0) == 42
  {
    hide Width;
    var ws := Columns(false);
    NoWidth(ws);
    WidthStep(ws, 15); WidthStep(ws, 14); WidthStep(ws, 13); WidthStep(ws, 12); WidthStep(ws, 11); WidthStep(ws, 10);
    WidthStep(ws, 9); WidthStep(ws, 8); WidthStep(ws, 7); WidthStep(ws, 6); WidthStep(ws, 5);
    WidthStep(ws, 4); WidthStep(ws, 3); WidthStep(ws, 2); WidthStep(ws, 1); WidthStep(ws, 0);
  }

  lemma WidthStep(ws: seq<nat>, i: nat)
    requires i < |ws|
    ensures Width(ws, i) == ws[i] + Width(ws, i + 1)
  {
  }

  lemma NoWidth(ws: seq<nat>)
    ensures Width(ws, |ws|) == 0
  {
  }

  function Values(clock: Clock, d: Dirent, local: bool): (vs: seq<U32>)
    ensures FitsAll(Columns(local), vs)
  {
    var tm := clock.localtime(d.lastMod);
    if local then
      [d.needed, d.flags, d.compMethod, DosTime(tm), DosDate(tm), d.crc, d.csize, d.usize, |d.name|, |d.extra|]
    else
      [d.madeBy, d.needed, d.flags, d.compMethod, DosTime(tm), DosDate(tm), d.crc, d.csize, d.usize,
       |d.name|, |d.extra|, |d.comment|, d.disk, d.intAttr, d.extAttr, d.offset]
  }

  /** An entry before its strings are known. */
  datatype Fixed = Fixed(d: Dirent, nameLen: U16, extraLen: U16, commentLen: U16)

  function FromValues(clock: Clock, vs: seq<U32>, local: bool): Fixed
    requires FitsAll(Columns(local), vs)
  {
    if local then
      Fixed(FRESH_DIRENT.(madeBy := 0, needed := vs[0], flags := vs[1], compMethod := vs[2],
                          lastMod := clock.mktime(FromDos(vs[3], vs[4])),
                          crc := vs[5], csize := vs[6], usize := vs[7]),
            vs[8], vs[9], 0)
    else
      Fixed(FRESH_DIRENT.(madeBy := vs[0], needed := vs[1], flags := vs[2], compMethod := vs[3],
                          lastMod := clock.mktime(FromDos(vs[4], vs[5])),
                          crc := vs[6], csize := vs[7], usize := vs[8],
                          disk := vs[12], intAttr := vs[13], extAttr := vs[14], offset := vs[15]),
            vs[9], vs[10], vs[11])
  }

  function GetHead(s: Data, at: nat, local: bool): (vs: seq<U32>)
    requires at + HeadSize(local) <= |s|
    ensures FitsAll(Columns(local), vs)
  {
    ColumnsWidth(local);
    GetFields(Columns(local), s, at + 4, 0)
  }

  // ----- writing

  function Tail(d: Dirent, local: bool): Data {
    d.name + d.extra + if local then [] else d.comment
  }

  function EncodedSize(d: Dirent, local: bool): nat {
    HeadSize(local) + |Tail(d, local)|
  }

  function Encode(clock: Clock, d: Dirent, local: bool): (s: Data)
    ensures |s| == EncodedSize(d, local)
  {
    ColumnsWidth(local);
    Magic(local) + PutFields(Columns(local), Values(clock, d, local), 0) + Tail(d, local)
  }

  /** `_zip_dirent_write` */
  method WriteDirent(clock: Clock, d: Dirent, out: Stream, local: bool)
    requires out.pos <= |out.bytes|
    modifies out
    ensures out.bytes == Overwrite(old(out.bytes), old(out.pos), Encode(clock, d, local))
    ensures out.pos == old(out.pos) + EncodedSize(d, local) <= |out.bytes|
  {
    hide Overwrite, PutFields, Values;
    ghost var base, start := out.bytes, out.pos;
    OverwriteNothing(base, start);
    ghost var w := out.Put(base, start, [], Magic(local));
    w := out.PutRecord(Columns(local), Values(clock, d, local), base, start, w);
    w := WriteStrings(d, out, local, base, start, w);
    assert w == Encode(clock, d, local);
  }

  method WriteStrings(d: Dirent, out: Stream, local: bool, ghost base: Data, ghost start: nat, ghost head: Data)
    returns (ghost w: Data)
    requires start <= |base|
    requires out.bytes == Overwrite(base, start, head) && out.pos == start + |head|
    modifies out
    ensures w == head + Tail(d, local)
    ensures out.bytes == Overwrite(base, start, w) && out.pos == start + |w| <= |out.bytes|
  {
    w := out.Put(base, start, head, d.name);
    w := out.Put(base, start, w, d.extra);
    if !local {
      w := out.Put(base, start, w, d.comment);
    }
    assert w == head + Tail(d, local);
  }

  // ----- reading

  /** In-string NULs of a file name are replaced by spaces. */
  function NulsToSpaces(s: Data): (r: Data)
    ensures |r| == |s|
  {
    seq(|s|, i requires 0 <= i < |s| => if s[i] == 0 then 32 else s[i])
  }

  datatype Parsed = Parsed(d: Dirent, next: nat)

  /**
     The header at `at`, given that `s[..limit]` is available; `short` is the
     error for a header that does not fit.
   */
  function Parse(clock: Clock, s: Data, at: nat, limit: nat, local: bool, short: ZipError)
    : (r: Result<Parsed, ZipError>)
    requires limit <= |s|
    ensures r.Ok? ==> at < r.value.next <= limit
  {
    if limit < at + HeadSize(local) then Err(short)
    else if s[at..at + 4] != Magic(local) then Err(NoZip)
    else ParseStrings(FromValues(clock, GetHead(s, at, local), local), s, at + HeadSize(local), limit, short)
  }

  function ParseStrings(f: Fixed, s: Data, at: nat, limit: nat, short: ZipError): Result<Parsed, ZipError>
    requires limit <= |s|
  {
    var p := at + f.nameLen;
    var q := p + f.extraLen;
    var r := q + f.commentLen;
    if limit < r then Err(short)
    else Ok(Parsed(WithStrings(f, s[at..p], s[p..q], s[q..r]), r))
  }

  function WithStrings(f: Fixed, name: Data, extra: Data, comment: Data): Dirent
    requires |name| < 0x1_0000 && |extra| < 0x1_0000 && |comment| < 0x1_0000
  {
    f.d.(name := NulsToSpaces(name), extra := extra, comment := comment)
  }

  /** `_zip_dirent_read` from the stream, `bufp == NULL`. */
  method ReadDirent(clock: Clock, fp: Stream, local: bool) returns (r: Result<Dirent, ZipError>)
    modifies fp`pos
    ensures var p := Parse(clock, fp.bytes, old(fp.pos), |fp.bytes|, local, ReadError);
            if p.Ok? then r == Ok(p.value.d) && fp.pos == p.value.next else r == Err(p.error)
  {
    ghost var at := fp.pos;
    var head := fp.Read(HeadSize(local));
    if |head| < HeadSize(local) {
      return Err(ReadError);
    }
    HeadElsewhere(head, fp.bytes, at, local);
    if head[..4] != Magic(local) {
      return Err(NoZip);
    }
    r := ReadStrings(FromValues(clock, GetHead(head, 0, local), local), fp);
  }

  method ReadStrings(f: Fixed, fp: Stream) returns (r: Result<Dirent, ZipError>)
    requires fp.pos <= |fp.bytes|
    modifies fp`pos
    ensures var p := ParseStrings(f, fp.bytes, old(fp.pos), |fp.bytes|, ReadError);
            if p.Ok? then r == Ok(p.value.d) && fp.pos == p.value.next else r == Err(p.error)
  {
    hide WithStrings;
    var name := fp.Read(f.nameLen);
    if |name| < f.nameLen { return Err(ReadError); }
    var extra := fp.Read(f.extraLen);
    if |extra| < f.extraLen { return Err(ReadError); }
    var comment := fp.Read(f.commentLen);
    if |comment| < f.commentLen { return Err(ReadError); }
    r := Ok(WithStrings(f, name, extra, comment));
  }

  lemma HeadElsewhere(head: Data, s: Data, at: nat, local: bool)
    requires |head| == HeadSize(local) && at + |head| <= |s| && head == s[at..at + |head|]
    ensures head[..4] == s[at..at + 4]
    ensures GetHead(head, 0, local) == GetHead(s, at, local)
  {
    ColumnsWidth(local);
    var n := |head|;
    Slice(s, at, n, 0, 4);
    Slice(s, at, n, 4, n - 4);
    assert head[0..4] == head[..4];
    FieldsElsewhere(Columns(local), 0, head, 4, s, at + 4);
  }

  /** `_zip_dirent_read` from memory; `bufp` points at `buf[at]` and `limit - at` bytes are left. */
  method ReadDirentFrom(clock: Clock, buf: Data, at: nat, limit: nat) returns (r: Result<Parsed, ZipError>)
    requires at <= limit <= |buf|
    ensures r == Parse(clock, buf, at, limit, false, NoZip)
  {
    var left := limit - at;
    if left < CDENTRYSIZE {
      return Err(NoZip);
    }
    if buf[at..at + 4] != CENTRAL_MAGIC {
      return Err(NoZip);
    }
    var f := FromValues(clock, GetHead(buf, at, false), false);
    if left < CDENTRYSIZE + (f.nameLen + f.extraLen + f.commentLen) {
      return Err(NoZip);
    }
    var cur := at + CDENTRYSIZE;
    var name := buf[cur..cur + f.nameLen];
    cur := cur + f.nameLen;
    var extra := buf[cur..cur + f.extraLen];
    cur := cur + f.extraLen;
    var comment := buf[cur..cur + f.commentLen];
    r := Ok(Parsed(WithStrings(f, name, extra, comment), cur + f.commentLen));
  }

  // ----- reading back what was written

  /** What a reader makes of an entry that was written. */
  function Stored(clock: Clock, d: Dirent, local: bool): Dirent {
    var r := d.(lastMod := StoredTime(clock, d.lastMod), name := NulsToSpaces(d.name));
    if local then r.(madeBy := 0, comment := [], disk := 0, intAttr := 0, extAttr := 0, offset := 0) else r
  }

  /** Wherever a written header lies, reading it returns the entry as stored and stops behind it. */
  lemma EncodeParse(clock: Clock, d: Dirent, local: bool, s: Data, at: nat, limit: nat, short: ZipError)
    requires at + EncodedSize(d, local) <= limit <= |s|
    requires s[at..at + EncodedSize(d, local)] == Encode(clock, d, local)
    ensures Parse(clock, s, at, limit, local, short)
         == Ok(Parsed(Stored(clock, d, local), at + EncodedSize(d, local)))
  {
    hide PutFields, GetFields, ParseStrings, FromValues, Values, WithStrings, Stored;
    var ws, vs := Columns(local), Values(clock, d, local);
    HeadReadBack(ws, vs, Magic(local), Tail(d, local), s, at);
    ColumnsWidth(local);
    ValuesBack(clock, d, local);
    StringsReadBack(FromValues(clock, vs, local), d.name, d.extra, if local then [] else d.comment,
                    s, at + HeadSize(local), limit, short);
  }

  lemma ValuesBack(clock: Clock, d: Dirent, local: bool)
    ensures var f := FromValues(clock, Values(clock, d, local), local);
            && f.nameLen == |d.name| && f.extraLen == |d.extra| && f.commentLen == (if local then 0 else |d.comment|)
            && WithStrings(f, d.name, d.extra, if local then [] else d.comment) == Stored(clock, d, local)
  {
  }

  lemma HeadReadBack(ws: seq<nat>, vs: seq<U32>, magic: Data, tail: Data, s: Data, at: nat)
    requires FitsAll(ws, vs) && |magic| == 4
    requires at + 4 + Width(ws, 0) + |tail| <= |s|
    requires s[at..at + 4 + Width(ws, 0) + |tail|] == magic + PutFields(ws, vs, 0) + tail
    ensures s[at..at + 4] == magic && GetFields(ws, s, at + 4, 0) == vs
    ensures s[at + 4 + Width(ws, 0)..at + 4 + Width(ws, 0) + |tail|] == tail
  {
    var fields := PutFields(ws, vs, 0);
    Pieces(s, at, magic + fields, tail);
    Pieces(s, at, magic, fields);
    FieldsReadBack(ws, vs, 0, s, at + 4);
  }

  lemma StringsReadBack(f: Fixed, name: Short, extra: Short, comment: Short,
                        s: Data, at: nat, limit: nat, short: ZipError)
    requires f.nameLen == |name| && f.extraLen == |extra| && f.commentLen == |comment|
    requires at + |name + extra + comment| <= limit <= |s|
    requires s[at..at + |name + extra + comment|] == name + extra + comment
    ensures ParseStrings(f, s, at, limit, short)
         == Ok(Parsed(WithStrings(f, name, extra, comment), at + |name + extra + comment|))
  {
    Pieces(s, at, name + extra, comment);
    Pieces(s, at, name, extra);
  }
}
