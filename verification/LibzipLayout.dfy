/**
 The on-disk formats byte by byte: where each field of the local file header, the
 central header and the end record lies (PKWARE APPNOTE.TXT, sections 4.3.7,
 4.3.12 and 4.3.16), and the bits of MS-DOS dates and times (section 4.4.6).
 */
module ZipLayout {
  import opened Results
  import opened ZipBytes
  import opened ZipFormat
  import opened ZipDirectory

  /** Two bytes at `at`, the low one first. */
  predicate Word(s: Data, at: nat, v: int) {
    at + 2 <= |s| && var (b0: int, b1: int) := (s[at], s[at + 1]); b0 + 0x100 * b1 == v
  }

  /** Four bytes at `at`, the lowest one first. */
  predicate Long(s: Data, at: nat, v: int) {
    && at + 4 <= |s|
    && var (b0: int, b1: int, b2: int, b3: int) := (s[at], s[at + 1], s[at + 2], s[at + 3]);
       b0 + 0x100 * b1 + 0x1_0000 * b2 + 0x100_0000 * b3 == v
  }

  predicate Bytes(s: Data, at: nat, bs: Data) {
    at + |bs| <= |s| && s[at..at + |bs|] == bs
  }

  predicate LocalLayout(s: Data, at: nat, d: Dirent, time: U16, date: U16) {
    && Bytes(s, at, [0x50, 0x4B, 3, 4])
    && Word(s, at + 4, d.needed) && Word(s, at + 6, d.flags) && Word(s, at + 8, d.compMethod)
    && Word(s, at + 10, time) && Word(s, at + 12, date)
    && Long(s, at + 14, d.crc) && Long(s, at + 18, d.csize) && Long(s, at + 22, d.usize)
    && Word(s, at + 26, |d.name|) && Word(s, at + 28, |d.extra|)
    && Bytes(s, at + 30, d.name) && Bytes(s, at + 30 + |d.name|, d.extra)
  }

  predicate CentralLayout(s: Data, at: nat, d: Dirent, time: U16, date: U16) {
    && Bytes(s, at, [0x50, 0x4B, 1, 2])
    && Word(s, at + 4, d.madeBy) && Word(s, at + 6, d.needed) && Word(s, at + 8, d.flags)
    && Word(s, at + 10, d.compMethod) && Word(s, at + 12, time) && Word(s, at + 14, date)
    && Long(s, at + 16, d.crc) && Long(s, at + 20, d.csize) && Long(s, at + 24, d.usize)
    && Word(s, at + 28, |d.name|) && Word(s, at + 30, |d.extra|) && Word(s, at + 32, |d.comment|)
    && Word(s, at + 34, d.disk) && Word(s, at + 36, d.intAttr) && Long(s, at + 38, d.extAttr)
    && Long(s, at + 42, d.offset)
    && Bytes(s, at + 46, d.name) && Bytes(s, at + 46 + |d.name|, d.extra)
    && Bytes(s, at + 46 + |d.name| + |d.extra|, d.comment)
  }

  predicate EocdLayout(s: Data, at: nat, count: U16, size: U32, offset: U32, comment: Short) {
    && Bytes(s, at, [0x50, 0x4B, 5, 6]) && Word(s, at + 4, 0) && Word(s, at + 6, 0)
    && Word(s, at + 8, count) && Word(s, at + 10, count)
    && Long(s, at + 12, size) && Long(s, at + 16, offset)
    && Word(s, at + 20, |comment|) && Bytes(s, at + 22, comment)
  }

  // ----- where the fields of a record lie

  lemma {:induction false} FieldLies(ws: seq<nat>, s: Data, at: nat, i: nat, k: nat)
    requires Layout(ws) && i <= k < |ws| && at + Width(ws, i) <= |s|
    ensures Width(ws, k) <= Width(ws, i)
    ensures var (p, v: int) := (at + Width(ws, i) - Width(ws, k), GetFields(ws, s, at, i)[k - i]);
            if ws[k] == 2 then Word(s, p, v) else Long(s, p, v)
    decreases k - i
  {
    if i < k {
      FieldLies(ws, s, at + ws[i], i + 1, k);
    }
  }

  lemma LocalWidths()
    ensures var ws := Columns(true);
            && Width(ws, 0) == 26 && Width(ws, 1) == 24 && Width(ws, 2) == 22 && Width(ws, 3) == 20
            && Width(ws, 4) == 18 && Width(ws, 5) == 16 && Width(ws, 6) == 12 && Width(ws, 7) == 8
            && Width(ws, 8) == 4 && Width(ws, 9) == 2
  {
    hide Width;
    var ws := Columns(true);
    NoWidth(ws);
    WidthStep(ws, 9); WidthStep(ws, 8); WidthStep(ws, 7); WidthStep(ws, 6); WidthStep(ws, 5);
    WidthStep(ws, 4); WidthStep(ws, 3); WidthStep(ws, 2); WidthStep(ws, 1); WidthStep(ws, 0);
  }

  lemma CentralWidths()
    ensures var ws := Columns(false);
            && Width(ws, 0) == 42 && Width(ws, 1) == 40 && Width(ws, 2) == 38 && Width(ws, 3) == 36
            && Width(ws, 4) == 34 && Width(ws, 5) == 32 && Width(ws, 6) == 30 && Width(ws, 7) == 26
            && Width(ws, 8) == 22 && Width(ws, 9) == 18 && Width(ws, 10) == 16 && Width(ws, 11) == 14
            && Width(ws, 12) == 12 && Width(ws, 13) == 10 && Width(ws, 14) == 8 && Width(ws, 15) == 4
  {
    hide Width;
    var ws := Columns(false);
    NoWidth(ws);
    WidthStep(ws, 15); WidthStep(ws, 14); WidthStep(ws, 13); WidthStep(ws, 12); WidthStep(ws, 11); WidthStep(ws, 10);
    WidthStep(ws, 9); WidthStep(ws, 8); WidthStep(ws, 7); WidthStep(ws, 6); WidthStep(ws, 5);
    WidthStep(ws, 4); WidthStep(ws, 3); WidthStep(ws, 2); WidthStep(ws, 1); WidthStep(ws, 0);
  }

  lemma HeadField(s: Data, at: nat, local: bool, k: nat, p: nat)
    requires at + HeadSize(local) <= |s| && k < |Columns(local)|
    requires p == at + 4 + Width(Columns(local), 0) - Width(Columns(local), k)
    ensures var v: int := GetHead(s, at, local)[k];
            if Columns(local)[k] == 2 then Word(s, p, v) else Long(s, p, v)
  {
    hide Width, GetFields, Word, Long;
    ColumnsWidth(local);
    FieldLies(Columns(local), s, at + 4, 0, k);
  }

  predicate LocalFields(s: Data, at: nat, vs: seq<int>)
    requires |vs| == 10
  {
    && Word(s, at + 4, vs[0]) && Word(s, at + 6, vs[1]) && Word(s, at + 8, vs[2])
    && Word(s, at + 10, vs[3]) && Word(s, at + 12, vs[4])
    && Long(s, at + 14, vs[5]) && Long(s, at + 18, vs[6]) && Long(s, at + 22, vs[7])
    && Word(s, at + 26, vs[8]) && Word(s, at + 28, vs[9])
  }

  lemma LocalHead(s: Data, at: nat)
    requires at + HeadSize(true) <= |s|
    ensures LocalFields(s, at, GetHead(s, at, true))
  {
    hide Width, GetHead, Word, Long;
    LocalWidths();
    HeadField(s, at, true, 0, at + 4); HeadField(s, at, true, 1, at + 6); HeadField(s, at, true, 2, at + 8);
    HeadField(s, at, true, 3, at + 10); HeadField(s, at, true, 4, at + 12); HeadField(s, at, true, 5, at + 14);
    HeadField(s, at, true, 6, at + 18); HeadField(s, at, true, 7, at + 22); HeadField(s, at, true, 8, at + 26);
    HeadField(s, at, true, 9, at + 28);
  }

  predicate CentralFields(s: Data, at: nat, vs: seq<int>)
    requires |vs| == 16
  {
    && Word(s, at + 4, vs[0]) && Word(s, at + 6, vs[1]) && Word(s, at + 8, vs[2])
    && Word(s, at + 10, vs[3]) && Word(s, at + 12, vs[4]) && Word(s, at + 14, vs[5])
    && Long(s, at + 16, vs[6]) && Long(s, at + 20, vs[7]) && Long(s, at + 24, vs[8])
    && Word(s, at + 28, vs[9]) && Word(s, at + 30, vs[10]) && Word(s, at + 32, vs[11])
    && Word(s, at + 34, vs[12]) && Word(s, at + 36, vs[13]) && Long(s, at + 38, vs[14])
    && Long(s, at + 42, vs[15])
  }

  lemma CentralHead(s: Data, at: nat)
    requires at + HeadSize(false) <= |s|
    ensures CentralFields(s, at, GetHead(s, at, false))
  {
    hide Width, GetHead, Word, Long;
    CentralWidths();
    HeadField(s, at, false, 0, at + 4); HeadField(s, at, false, 1, at + 6); HeadField(s, at, false, 2, at + 8);
    HeadField(s, at, false, 3, at + 10); HeadField(s, at, false, 4, at + 12); HeadField(s, at, false, 5, at + 14);
    HeadField(s, at, false, 6, at + 16); HeadField(s, at, false, 7, at + 20); HeadField(s, at, false, 8, at + 24);
    HeadField(s, at, false, 9, at + 28); HeadField(s, at, false, 10, at + 30); HeadField(s, at, false, 11, at + 32);
    HeadField(s, at, false, 12, at + 34); HeadField(s, at, false, 13, at + 36); HeadField(s, at, false, 14, at + 38);
    HeadField(s, at, false, 15, at + 42);
  }

  // ----- what is written

  lemma EncodedHead(clock: Clock, d: Dirent, local: bool)
    ensures var s := Encode(clock, d, local);
            && s[0..4] == Magic(local) && GetHead(s, 0, local) == Values(clock, d, local)
            && s[HeadSize(local)..] == Tail(d, local)
  {
    hide PutFields, GetFields, Values;
    ColumnsWidth(local);
    var s := Encode(clock, d, local);
    assert s[0..0 + 4 + Width(Columns(local), 0) + |Tail(d, local)|] == s;
    HeadReadBack(Columns(local), Values(clock, d, local), Magic(local), Tail(d, local), s, 0);
  }

  /** A local header as it is written. */
  lemma LocalWritten(clock: Clock, d: Dirent)
    ensures var tm := clock.localtime(d.lastMod);
            LocalLayout(Encode(clock, d, true), 0, d, DosTime(tm), DosDate(tm))
    ensures |Encode(clock, d, true)| == 30 + |d.name| + |d.extra|
  {
    hide Encode, GetHead, Word, Long, DosTime, DosDate;
    EncodedHead(clock, d, true);
    var s := Encode(clock, d, true);
    LocalHead(s, 0);
    var tail := s[30..];
    assert s[30..30 + |d.name|] == tail[..|d.name|];
    assert s[30 + |d.name|..30 + |d.name| + |d.extra|] == tail[|d.name|..|d.name| + |d.extra|];
  }

  /** A central header as it is written. */
  lemma CentralWritten(clock: Clock, d: Dirent)
    ensures var tm := clock.localtime(d.lastMod);
            CentralLayout(Encode(clock, d, false), 0, d, DosTime(tm), DosDate(tm))
    ensures |Encode(clock, d, false)| == 46 + |d.name| + |d.extra| + |d.comment|
  {
    hide Encode, GetHead, Word, Long, DosTime, DosDate;
    EncodedHead(clock, d, false);
    var s := Encode(clock, d, false);
    CentralHead(s, 0);
    var tail, p, q := s[46..], |d.name|, |d.name| + |d.extra|;
    assert s[46..46 + p] == tail[..p] && s[46 + p..46 + q] == tail[p..q];
    assert s[46 + q..46 + q + |d.comment|] == tail[q..q + |d.comment|];
  }

  /** The end record of a directory of `es`, which starts at `at` and takes up `size` bytes. */
  lemma EocdWritten(count: nat, size: U32, offset: U32, comment: Short)
    ensures EocdLayout(EncodeEocd(count, size, offset, comment), 0, count % 0x1_0000, size, offset, comment)
    ensures |EncodeEocd(count, size, offset, comment)| == 22 + |comment|
  {
    hide PutFields, GetFields, Word, Long, Width;
    EocdWidth();
    var ws, vs := EOCD_COLUMNS, EocdValues(count, size, offset, comment);
    var s := EncodeEocd(count, size, offset, comment);
    assert s[0..0 + 4 + Width(ws, 0) + |comment|] == s;
    HeadReadBack(ws, vs, EOCD_MAGIC, comment, s, 0);
    EocdHead(s, 0);
  }

  lemma EocdWidths()
    ensures var ws := EOCD_COLUMNS;
            && Layout(ws) && Width(ws, 0) == 18 && Width(ws, 1) == 14 && Width(ws, 2) == 12 && Width(ws, 3) == 10
            && Width(ws, 4) == 6 && Width(ws, 5) == 2
  {
    var ws := EOCD_COLUMNS;
    assert Width(ws, 6) == 0;
  }

  lemma EocdHead(s: Data, at: nat)
    requires at + 22 <= |s|
    ensures Width(EOCD_COLUMNS, 0) == 18 && Layout(EOCD_COLUMNS)
    ensures var vs := GetFields(EOCD_COLUMNS, s, at + 4, 0);
            && Long(s, at + 4, vs[0]) && Word(s, at + 8, vs[1]) && Word(s, at + 10, vs[2])
            && Long(s, at + 12, vs[3]) && Long(s, at + 16, vs[4]) && Word(s, at + 20, vs[5])
            && (vs[0] == 0 <==> Word(s, at + 4, 0) && Word(s, at + 6, 0))
  {
    hide Width, GetFields;
    var ws, p := EOCD_COLUMNS, at + 4;
    EocdWidths();
    FieldLies(ws, s, p, 0, 0); FieldLies(ws, s, p, 0, 1); FieldLies(ws, s, p, 0, 2); FieldLies(ws, s, p, 0, 3);
    FieldLies(ws, s, p, 0, 4); FieldLies(ws, s, p, 0, 5);
  }

  // ----- dates and times

  /** Day, month and year from 1980 on in 5, 4 and 7 bits; two seconds, minutes and hours in 5, 6 and 5. */
  lemma DosWords(tm: Tm)
    requires DosRange(tm)
    ensures DosDate(tm) == tm.mday + 32 * (tm.mon + 1) + 512 * (tm.year + 1900 - 1980)
    ensures DosTime(tm) == tm.sec / 2 + 32 * tm.min + 2048 * tm.hour
  {
    DosDateOf(tm);
    TimeBits(tm.hour, tm.min, tm.sec / 2);
  }

  /** And read again, from any two words. */
  lemma DosRead(time: U16, date: U16)
    ensures var tm := FromDos(time, date);
            && date == tm.mday + 32 * (tm.mon + 1) + 512 * (tm.year + 1900 - 1980)
            && 0 <= tm.mday < 32 && 0 <= tm.mon + 1 < 16
            && time == tm.sec / 2 + 32 * tm.min + 2048 * tm.hour
            && 0 <= tm.sec < 64 && tm.sec % 2 == 0 && 0 <= tm.min < 64
  {
    var t: int, d: int := time, date;
    assert d == d / 32 * 32 + d % 32 && d / 32 == d / 512 * 16 + d / 32 % 16;
    assert t == t / 32 * 32 + t % 32 && t / 32 == t / 2048 * 64 + t / 32 % 64;
    assert t * 2 % 64 == t % 32 * 2;
  }

  // ----- what is read

  /** A text with a space for each NUL. */
  predicate Spaced(raw: Data, name: Data) {
    |name| == |raw| && forall i | 0 <= i < |raw| :: name[i] == if raw[i] == 0 then 32 else raw[i]
  }

  lemma ParsedParts(clock: Clock, s: Data, at: nat, limit: nat, local: bool, short: ZipError)
    returns (p: nat, q: nat)
    requires limit <= |s| && Parse(clock, s, at, limit, local, short).Ok?
    ensures at + HeadSize(local) <= |s| && s[at..at + 4] == Magic(local)
    ensures var f := FromValues(clock, GetHead(s, at, local), local);
            var (d, next) := (Parse(clock, s, at, limit, local, short).value.d,
                              Parse(clock, s, at, limit, local, short).value.next);
            && p == at + HeadSize(local) + f.nameLen && q == p + f.extraLen && next == q + f.commentLen <= |s|
            && d == WithStrings(f, s[at + HeadSize(local)..p], s[p..q], s[q..next])
  {
    hide GetHead, FromValues, WithStrings;
    var f := FromValues(clock, GetHead(s, at, local), local);
    p := at + HeadSize(local) + f.nameLen;
    q := p + f.extraLen;
  }

  lemma ParseFails(clock: Clock, s: Data, at: nat, limit: nat, local: bool, short: ZipError)
    requires limit <= |s|
    ensures var r := Parse(clock, s, at, limit, local, short);
            if limit < at + HeadSize(local) then r == Err(short)
            else if s[at..at + 4] != Magic(local) then r == Err(NoZip)
            else if limit < at + HeadSize(local) + Lengths(s, at, local) then r == Err(short)
            else r.Ok?
  {
    hide GetHead, WithStrings;
  }

  /** The two lengths of a local header, or the three of a central one, and what they add up to. */
  function Lengths(s: Data, at: nat, local: bool): nat
    requires at + HeadSize(local) <= |s|
  {
    var vs := GetHead(s, at, local);
    if local then vs[8] + vs[9] else vs[9] + vs[10] + vs[11]
  }

  /**
     Reading a local header: it fails exactly if it does not fit or its first bytes
     are others; if it succeeds, the entry is what the bytes say, with the time that
     the C library makes of the two words and spaces for the NULs of the name.
     */
  lemma LocalRead(clock: Clock, s: Data, at: nat, limit: nat, short: ZipError)
    returns (raw: Short, time: U16, date: U16)
    requires limit <= |s|
    ensures match Parse(clock, s, at, limit, true, short)
            case Ok(p) =>
              && p.next == at + 30 + |p.d.name| + |p.d.extra|
              && Spaced(raw, p.d.name) && LocalLayout(s, at, p.d.(name := raw), time, date)
              && p.d.lastMod == clock.mktime(FromDos(time, date))
              && p.d == p.d.(madeBy := 0, comment := [], disk := 0, intAttr := 0, extAttr := 0, offset := 0)
            case Err(e) =>
              if limit < at + 30 then e == short
              else if !Bytes(s, at, [0x50, 0x4B, 3, 4]) then e == NoZip
              else e == short && limit < at + 30 + Lengths(s, at, true)
  {
    hide GetHead, Word, Long, FromDos, Parse, Lengths;
    raw, time, date := [], 0, 0;
    ParseFails(clock, s, at, limit, true, short);
    if Parse(clock, s, at, limit, true, short).Ok? {
      var p, q := ParsedParts(clock, s, at, limit, true, short);
      LocalHead(s, at);
      var vs := GetHead(s, at, true);
      raw, time, date := s[at + 30..p], vs[3], vs[4];
    }
  }

  /** The same for a central header. */
  lemma CentralRead(clock: Clock, s: Data, at: nat, limit: nat, short: ZipError)
    returns (raw: Short, time: U16, date: U16)
    requires limit <= |s|
    ensures match Parse(clock, s, at, limit, false, short)
            case Ok(p) =>
              && p.next == at + 46 + |p.d.name| + |p.d.extra| + |p.d.comment|
              && Spaced(raw, p.d.name) && CentralLayout(s, at, p.d.(name := raw), time, date)
              && p.d.lastMod == clock.mktime(FromDos(time, date))
            case Err(e) =>
              if limit < at + 46 then e == short
              else if !Bytes(s, at, [0x50, 0x4B, 1, 2]) then e == NoZip
              else e == short && limit < at + 46 + Lengths(s, at, false)
  {
    hide GetHead, Word, Long, FromDos, Parse, Lengths;
    raw, time, date := [], 0, 0;
    ParseFails(clock, s, at, limit, false, short);
    if Parse(clock, s, at, limit, false, short).Ok? {
      var p, q := ParsedParts(clock, s, at, limit, false, short);
      CentralHead(s, at);
      var vs := GetHead(s, at, false);
      raw, time, date := s[at + 46..p], vs[4], vs[5];
    }
  }

  /**
     Reading an end record succeeds exactly if it is laid out as one, its two counts
     agree, and its comment fits, exactly if the stricter check is asked for.
     */
  lemma EocdRead(buf: Data, eocd: nat, checkCons: bool, e: Eocd)
    requires eocd <= |buf|
    ensures ParseEocd(buf, eocd, checkCons) == Ok(e)
       <==> && EocdLayout(buf, eocd, e.count, e.size, e.offset, e.comment)
            && (checkCons ==> |buf| == eocd + 22 + |e.comment|)
  {
    hide GetFields, Width;
    if eocd + 22 <= |buf| {
      EocdHead(buf, eocd);
      EocdTail(buf, eocd);
    }
  }

  lemma EocdTail(buf: Data, eocd: nat)
    requires eocd + 22 <= |buf|
    ensures Layout(EOCD_COLUMNS) && Width(EOCD_COLUMNS, 0) == 18 && Width(EOCD_COLUMNS, 1) == 14
    ensures GetFields(EOCD_COLUMNS, buf, eocd + 4, 0)[1..] == GetFields(EOCD_COLUMNS, buf, eocd + 8, 1)
  {
    EocdWidth();
  }
}
