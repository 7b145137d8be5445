# Verified models of six cores of the Nim repository

Dafny models of the vendored libzip, the linenoise line editor, the search and table-of-contents page script, the
compiler's alias analysis, its table aligner and the Genode system lock, each with the laws it is meant to keep.

- **libzip** (`LibzipBytes`, `LibzipFormat`, `LibzipDirectory`, `LibzipLayout`, `LibzipFind`, `LibzipArchive`,
  `LibzipEdits`, `LibzipClose`, `LibzipReopen`, `LibzipReader`, `LibzipCycle`): the byte formats of APPNOTE.TXT sections 4.3.7, 4.3.12, 4.3.16 and
  4.4.6, a stdio stream with a position, the entries of an open archive with every edit, the writer behind `zip_close`,
  the consistency check, the search for the end record, and chunked reading. The main result is
  `EditCloseReopen`: what the writer writes after any edits is what the
  consistency check accepts and the reader returns.
- **linenoise** (`LinenoiseScreen`, `LinenoiseHistory`, `LinenoiseEdit`, `LinenoiseState`, `LinenoiseSession`): the
  editor in multi-line mode on its buffer, the refresh against a terminal of cells with deferred wrap and the control
  functions CUU, CUD, CUF and EL of ECMA-48 (sections 8.3.22, 8.3.19, 8.3.20, 8.3.41), the bounded history and whole
  sessions.
- **dochack** (`NimStrings`, `FuzzyMatch`, `Toc`): conversion between UTF-16 (RFC 2781, sections 2.1 and 2.2) and UTF-8
  (RFC 3629, section 3), the scoring automaton of the search with its overflow checks, and the rewrite of the table of
  contents.
- **compiler** (`AliasAnalysis`, `AsciiTables`): the three-valued alias answer against what access paths denote, and
  the two-pass table parser with its printer.
- **Genode** (`SysLock`): the two-mutex lock as interleaved steps of any number of threads.

`Basics` and `Results` hold what the modules share. Methods follow the loops and updates of the source and are proved
against functions; the lemmas say what those functions amount to.

Foreign calls are parameters: `Clock` is `localtime` and `mktime`, `Env` adds one step of zlib's `crc32` and its deflate
stream as a function of the whole input. Every statement holds for every choice of them.

## Findings

Laws that fail as one would first state them. For each: where, the exact condition, and an input that fails.

- A file whose last entry ends at 2 GB or later is written without an error, and its own consistency check refuses it:
  the score is an `int` (tests/deps/zip-0.2.1/zip/private/libzip_all.c:3170). `ZipDirectory.ScoreMeaning`,
  `ZipReopen.WrittenFileIsConsistent`; `ZipCycle.LargeArchiveRejected`.
- An archive comment of 65536 bytes is accepted but lost on closing (tests/deps/zip-0.2.1/zip/private/libzip_all.c:2820,
  2070). `ZipReopen.CommentKeptIff`; `ZipReopen.LongestCommentLost`. File comments fare alike, and longer names are cut:
  `ZipReopen.TextsKeptIff`.
- Bringing back a deleted entry, by undoing or by replacing it, can give two entries of one name
  (tests/deps/zip-0.2.1/zip/private/libzip_all.c:2795, 2869). `ZipArchive.ApplyDistinctIff`;
  `ZipArchive.DuplicateByRevival`.
- Opening a slice behind the end of an entry, or from 2 GB on inside a larger one, never comes back: the bytes skipped
  are counted in an `int` (tests/deps/zip-0.2.1/zip/private/libzip_all.c:3870, 3878). `ZipReader.OpenReturnsIff`;
  `ZipReader.OpenNeverReturns`.
- Browsing the history loses text if the line shown does not fit the buffer (lib/wrappers/linenoise/linenoise.c:715).
  `LinenoiseEdit.MoveKeepsOverlayIff`; `LinenoiseEdit.LongLineLost`.
- An editing session can change the history without browsing: it drops the oldest line of a full one and a last line
  that is empty, and leaves an empty line after Ctrl-C (lib/wrappers/linenoise/linenoise.c:792, 816, 828).
  `LinenoiseSession.HistoryKeptIff`; `LinenoiseSession.HistoryNotKept`.
- Strings with a lone surrogate do not survive the trip to Nim and back (tools/dochack/dochack.js:341).
  `NimStrings.RoundTripIff`; `NimStrings.LoneSurrogateLost`.
- Aligning without a separator can add a newline at the end (compiler/asciitables.nim:82).
  `AsciiTables.NewlineKeptIff`; `AsciiTables.NewlineAdded`.
- A contended `acquireSys` waits for ever (lib/genode_cpp/syslocks.h:32). `SysLock.AcquireGoesOnIff`;
  `SysLock.ContendedAcquireStuck`.

## Model

| member | source | states |
|---|---|---|
| `ZipBytes.FieldsReadBack` | tests/deps/zip-0.2.1/zip/private/libzip_all.c:1233-1256 | fields of two or four bytes, read where they were written, come back unchanged |
| `ZipFormat.WriteDirent` | tests/deps/zip-0.2.1/zip/private/libzip_all.c:1154-1205 | writing a local or central header overwrites exactly its own bytes with the encoding of the entry, in the middle of a file too |
| `ZipFormat.ReadDirent` | tests/deps/zip-0.2.1/zip/private/libzip_all.c:952-1083 | reading a header from the file returns what parsing its bytes returns, stops behind it, and reports a short file as a read error and a wrong magic number as no archive |
| `ZipFormat.ReadDirentFrom` | tests/deps/zip-0.2.1/zip/private/libzip_all.c:952-1083 | the same from memory, where too few bytes are no archive |
| `ZipFormat.EncodeParse` | tests/deps/zip-0.2.1/zip/private/libzip_all.c:952-1205 | parsing a written header gives back the entry as stored (16-bit strings, DOS time, the fields the header has) and ends where it ends, wherever it lies |
| `ZipFormat.DosRoundTrip` | tests/deps/zip-0.2.1/zip/private/libzip_all.c:1208-1351 | a broken-down time from 1980 to 2107 survives the two DOS words, with its seconds rounded down to even |
| `ZipLayout.LocalWritten` | tests/deps/zip-0.2.1/zip/private/libzip_all.c:1154-1205 | a written local header byte by byte: the magic number and each field at its offset, low byte first, then name and extra field |
| `ZipLayout.CentralWritten` | tests/deps/zip-0.2.1/zip/private/libzip_all.c:1154-1205 | the same for a central header, which has its comment last |
| `ZipLayout.EocdWritten` | tests/deps/zip-0.2.1/zip/private/libzip_all.c:866-896 | the same for the end record |
| `ZipLayout.LocalRead` | tests/deps/zip-0.2.1/zip/private/libzip_all.c:952-1083 | reading a local header returns what its bytes say, and fails exactly if it does not fit or begins otherwise, with the error for each case |
| `ZipLayout.CentralRead` | tests/deps/zip-0.2.1/zip/private/libzip_all.c:952-1083 | the same for a central header |
| `ZipLayout.EocdRead` | tests/deps/zip-0.2.1/zip/private/libzip_all.c:3019-3075 | reading an end record succeeds exactly if the bytes are laid out as one, with two equal counts and no other disk, and its comment fits, exactly so if the stricter check is asked for |
| `ZipLayout.DosWords` | tests/deps/zip-0.2.1/zip/private/libzip_all.c:1339-1351 | day, month and year from 1980 on in 5, 4 and 7 bits; two seconds, minutes and hours in 5, 6 and 5 |
| `ZipLayout.DosRead` | tests/deps/zip-0.2.1/zip/private/libzip_all.c:1208-1230 | the same read back from any two words |
| `ZipDirectory.WriteCdir` | tests/deps/zip-0.2.1/zip/private/libzip_all.c:866-896 | appends the central headers and the end record, and sets size and offset to what was written |
| `ZipDirectory.ReadCdir` | tests/deps/zip-0.2.1/zip/private/libzip_all.c:3019-3113 | reading a directory at an end record, from the buffer or from the file, agrees with the pure parser in entries, comment and every error |
| `ZipDirectory.EntriesReadBack` | tests/deps/zip-0.2.1/zip/private/libzip_all.c:3076-3108 | any number of written central headers parse back to the stored entries in order |
| `ZipDirectory.EocdReadBack` | tests/deps/zip-0.2.1/zip/private/libzip_all.c:3019-3075 | a written end record parses back to its count, size, offset and comment, with and without the stricter check |
| `ZipDirectory.CdirRoundTrip` | tests/deps/zip-0.2.1/zip/private/libzip_all.c:3019-3113 | reading at the end record written for any entries and comment returns the same entries and comment, whether or not the buffer reaches back to the directory |
| `ZipDirectory.CheckCons` | tests/deps/zip-0.2.1/zip/private/libzip_all.c:3123-3176 | the consistency check computes the score of the directory, 32-bit wrap-around included |
| `ZipDirectory.ScoreFromMeaning` | tests/deps/zip-0.2.1/zip/private/libzip_all.c:3123-3176 | from any point of the loop the result is how far the entries stretch, as an int, if every remaining one ends before the directory and agrees with its local header, and -1 otherwise |
| `ZipDirectory.ScoreMeaning` | tests/deps/zip-0.2.1/zip/private/libzip_all.c:3123-3176 | the score of a directory is how far its entries stretch, as an int, or -1; the check accepts exactly the plausible directories that stretch over less than 2 GB |
| `ZipDirectory.HighestIs` | tests/deps/zip-0.2.1/zip/private/libzip_all.c:3123-3176 | the upper end of that stretch is the greatest end of an entry |
| `ZipDirectory.LowestIs` | tests/deps/zip-0.2.1/zip/private/libzip_all.c:3123-3176 | its lower end is the least offset of an entry |
| `ZipDirectory.CentralLocalIff` | tests/deps/zip-0.2.1/zip/private/libzip_all.c:3210-3280 | what the check asks of a central and a local header: the same name, time, method and needed version; figures that are zero in the local one if it has a data descriptor, and otherwise the same |
| `ZipFind.MemChr` | tests/deps/zip-0.2.1/zip/private/libzip_all.c:3409-3427 | the first occurrence of a byte, or none exactly if there is none |
| `ZipFind.MemMem` | tests/deps/zip-0.2.1/zip/private/libzip_all.c:3409-3427 | the first occurrence of a pattern, or none exactly if there is none |
| `ZipFind.NextChosen` | tests/deps/zip-0.2.1/zip/private/libzip_all.c:3376-3400 | with a lazily recomputed best score the choice is still the earliest candidate of greatest score once a second one was seen |
| `ZipFind.FindCentralDir` | tests/deps/zip-0.2.1/zip/private/libzip_all.c:3331-3405 | every end record in the last bytes that can be read is a candidate; a single one is taken, of several the earliest of greatest score, and it fails exactly if that score is negative; without candidates the error is that of the last end record, or no archive |
| `ZipFind.VerdictPicks` | tests/deps/zip-0.2.1/zip/private/libzip_all.c:3376-3404 | a given candidate is what is found exactly if it is the earliest of greatest score and passes |
| `ZipFind.CandidatesAre` | tests/deps/zip-0.2.1/zip/private/libzip_all.c:3331-3405 | the candidates are the directories that can be read, at all end records and in their order |
| `ZipFind.LastErrorIs` | tests/deps/zip-0.2.1/zip/private/libzip_all.c:3331-3405 | the error reported without candidates is that of the last end record that cannot be read, or no archive |
| `ZipFind.TailIs` | tests/deps/zip-0.2.1/zip/private/libzip_all.c:3331-3370 | the search goes through the last 65558 bytes |
| `ZipArchive.Archive.NameLocate` | tests/deps/zip-0.2.1/zip/private/libzip_all.c:4154-4192 | the first entry that is seen under a name, or -1 exactly if there is none |
| `ZipArchive.Archive.SetNameOf` | tests/deps/zip-0.2.1/zip/private/libzip_all.c:2686-2718 | a taken name is refused, the own name changes nothing, otherwise the entry is renamed and marked |
| `ZipArchive.Archive.UnchangeAt` | tests/deps/zip-0.2.1/zip/private/libzip_all.c:2766-2798 | undoes name, comment and data of one entry unless its original name was taken meanwhile |
| `ZipArchive.Archive.ReplaceWith` | tests/deps/zip-0.2.1/zip/private/libzip_all.c:2858-2879 | a new or existing entry gets a source, and its former data and name as the code leaves them |
| `ZipArchive.Archive.Edit` | tests/deps/zip-0.2.1/zip/private/libzip_all.c:1355-1392 | every editing call is the pure one on the whole archive value, keeps the invariant, and keeps names distinct exactly if it does not clash |
| `ZipArchive.Archive.Rename` | tests/deps/zip-0.2.1/zip/private/libzip_all.c:2882-2905 | the whole new archive value and the error of a rename |
| `ZipArchive.Archive.Delete` | tests/deps/zip-0.2.1/zip/private/libzip_all.c:1355-1371 | the whole new archive value and the error of a deletion, which first undoes the entry |
| `ZipArchive.Archive.Replace` | tests/deps/zip-0.2.1/zip/private/libzip_all.c:2841-2854 | the whole new archive value and the error of a replacement |
| `ZipArchive.Archive.SetFileComment` | tests/deps/zip-0.2.1/zip/private/libzip_all.c:2525-2550 | the whole new archive value and the error of a file comment |
| `ZipArchive.Archive.SetArchiveComment` | tests/deps/zip-0.2.1/zip/private/libzip_all.c:2815-2840 | a comment over the maximum is refused and changes nothing, any other one is kept |
| `ZipArchive.Archive.SetArchiveFlag` | tests/deps/zip-0.2.1/zip/private/libzip_all.c:2721-2731 | flags are set and cleared in the changed flags only |
| `ZipArchive.Archive.UnchangeArchive` | tests/deps/zip-0.2.1/zip/private/libzip_all.c:2746-2756 | comment and flags are as they were opened, the entries untouched |
| `ZipArchive.Archive.UnchangeAll` | tests/deps/zip-0.2.1/zip/private/libzip_all.c:2801-2812 | every entry and the archive comment are undone |
| `ZipArchive.Archive.Changed` | tests/deps/zip-0.2.1/zip/private/libzip_all.c:2086-2108 | whether anything is changed, and how many entries survive |
| `ZipArchive.ApplyKeepsInv` | tests/deps/zip-0.2.1/zip/private/libzip_all.c:2686-2905 | every edit, failed ones and those of comment and flags too, keeps: a source exactly in replaced and added entries, a changed name in renamed ones, none in unchanged and deleted ones |
| `ZipArchive.RunKeepsInv` | tests/deps/zip-0.2.1/zip/private/libzip_all.c:2686-2905 | the same over all runs of edits |
| `ZipArchive.ApplyDistinctIff` | tests/deps/zip-0.2.1/zip/private/libzip_all.c:2686-2905 | an edit keeps the visible names pairwise distinct exactly if it does not clash: it neither brings back, by undoing or replacing, a deleted entry whose name was taken, nor undoes everything when the opened names were not distinct |
| `ZipArchive.RunDistinctIff` | tests/deps/zip-0.2.1/zip/private/libzip_all.c:2686-2905 | over a whole run the names are distinct after every edit exactly if none of them clashes |
| `ZipArchive.RunKeepsDistinct` | tests/deps/zip-0.2.1/zip/private/libzip_all.c:2686-2905 | names stay distinct over all runs, undoing everything included, that bring back no single deleted entry, although the name lookup returns the first match only |
| `ZipArchive.ReviveDistinctIff` | tests/deps/zip-0.2.1/zip/private/libzip_all.c:2766-2879 | bringing back a deleted entry keeps the names distinct exactly if nobody took its original name meanwhile |
| `ZipArchive.UndoAllDistinctIff` | tests/deps/zip-0.2.1/zip/private/libzip_all.c:2801-2812 | undoing everything leaves distinct names exactly if the opened archive had them |
| `ZipArchive.DuplicateByRevival` | tests/deps/zip-0.2.1/zip/private/libzip_all.c:2766-2879 | in any opened archive, deleting an entry, adding one of its name and undoing the deletion or replacing the deleted entry gives two entries of one name |
| `ZipArchive.ChangedIffUndoable` | tests/deps/zip-0.2.1/zip/private/libzip_all.c:2086-2108 | in every reachable state a change is reported exactly if undoing everything would alter the archive |
| `ZipArchive.RunKeepsOriginals` | tests/deps/zip-0.2.1/zip/private/libzip_all.c:2686-2905 | no run of edits loses an entry or touches the directory that was read |
| `ZipArchive.UndoRestores` | tests/deps/zip-0.2.1/zip/private/libzip_all.c:2801-2812 | after any run of edits, undoing everything leaves no change and shows every original entry under its original name |
| `ZipEdits.RenameRenames` | tests/deps/zip-0.2.1/zip/private/libzip_all.c:2882-2905 | a rename succeeds exactly if the entry is seen, the new name is not empty, is that of a directory if the old one is, and nobody else has it; then the entry is seen under it and nothing else changes, and on each error nothing does |
| `ZipEdits.FreeIfDistinct` | tests/deps/zip-0.2.1/zip/private/libzip_all.c:2686-2718 | while names are distinct, a name is free for an entry exactly if no other entry is seen under it |
| `ZipEdits.AddAdds` | tests/deps/zip-0.2.1/zip/private/libzip_all.c:2858-2879 | an addition succeeds exactly if nobody has the name; then a new entry of that name and source is the last one, and otherwise a nameless one is; the others stay |
| `ZipEdits.DeleteDeletes` | tests/deps/zip-0.2.1/zip/private/libzip_all.c:1355-1371 | a deletion succeeds for every index there is, and leaves neither name nor source nor comment |
| `ZipEdits.ReplaceReplaces` | tests/deps/zip-0.2.1/zip/private/libzip_all.c:2841-2879 | a replacement gives the entry the source and leaves name and comment; a deleted one is seen again under its original name |
| `ZipEdits.UnchangeUndoes` | tests/deps/zip-0.2.1/zip/private/libzip_all.c:2766-2798 | undoing one entry succeeds exactly if it was not renamed or nobody else has its original name, and makes it as it was opened |
| `ZipEdits.CommentComments` | tests/deps/zip-0.2.1/zip/private/libzip_all.c:2525-2550 | a file comment of up to 65536 bytes is kept with its entry, and a longer one refused |
| `ZipEdits.ArchiveCallsDo` | tests/deps/zip-0.2.1/zip/private/libzip_all.c:2746-2840 | the archive comment is kept up to 65536 bytes; undoing it, or everything, restores what was opened |
| `ZipEdits.FlagsSet` | tests/deps/zip-0.2.1/zip/private/libzip_all.c:2721-2731 | exactly the flags asked for are set or cleared |
| `ZipEdits.SurvivorsIff` | tests/deps/zip-0.2.1/zip/private/libzip_all.c:1620-1626 | the survivors are the entries that are not deleted, each once and in order |
| `ZipClose.AddDataComp` | tests/deps/zip-0.2.1/zip/private/libzip_all.c:1866-1888 | copies the source as it comes and fails exactly if a read fails |
| `ZipClose.AddDataUncomp` | tests/deps/zip-0.2.1/zip/private/libzip_all.c:1891-1970 | the running checksum and the two sizes are those of the whole source and its deflated form, whatever the chunks |
| `ZipClose.BackPatch` | tests/deps/zip-0.2.1/zip/private/libzip_all.c:1795-1861 | a header of the same length written over the first one leaves the data behind it alone |
| `ZipClose.AddData` | tests/deps/zip-0.2.1/zip/private/libzip_all.c:1795-1861 | header and packed data are appended, the header with the figures known only afterwards: data offered as stored is deflated, with its checksum and size, other data taken as it comes with the reported figures; it fails exactly if the source does |
| `ZipClose.CopyData` | tests/deps/zip-0.2.1/zip/private/libzip_all.c:1991-2020 | copies exactly the given number of bytes in chunks, and fails exactly if the file is too short |
| `ZipClose.WriteMember` | tests/deps/zip-0.2.1/zip/private/libzip_all.c:1622-1722 | one surviving entry is appended as its member: new data or the old data under a header without data descriptor; the central header points at it |
| `ZipClose.Close` | tests/deps/zip-0.2.1/zip/private/libzip_all.c:1547-1790 | the outcome of closing: untouched, removed, failed with the first error, or the file made of all members, the directory and the comment |
| `ZipClose.FirstFailure` | tests/deps/zip-0.2.1/zip/private/libzip_all.c:1622-1722 | once an entry fails, closing fails with its error whatever follows |
| `ZipReopen.MemberAt` | tests/deps/zip-0.2.1/zip/private/libzip_all.c:1622-1747 | the members abut, and each central header has the offset of its own local header |
| `ZipReopen.CopiedAgrees` | tests/deps/zip-0.2.1/zip/private/libzip_all.c:1676-1716 | an entry copied from a consistent archive agrees with its new local header, with the descriptor bit cleared |
| `ZipReopen.NewAgrees` | tests/deps/zip-0.2.1/zip/private/libzip_all.c:1640-1675 | so does an entry written from a source |
| `ZipReopen.WrittenScore` | tests/deps/zip-0.2.1/zip/private/libzip_all.c:3123-3176 | the score of the written directory is where its last entry ends without the local extra field, as an int |
| `ZipReopen.WrittenFileIsConsistent` | tests/deps/zip-0.2.1/zip/private/libzip_all.c:1547-1790 | closing a consistent or new archive after edits that leave each survivor a name writes one central entry per survivor, in order; new entries have method, checksum, sizes, time and data as their source asks for, old ones what they had; regions abut from 0 to the directory, headers agree, local extra fields are kept, reading at its end record gives that directory, and the check accepts it exactly if its last entry ends below 2 GB |
| `ZipReopen.WrittenFileReopens` | tests/deps/zip-0.2.1/zip/private/libzip_all.c:3331-3405 | the written directory is among the candidates of that file, opening finds it exactly if it is the earliest one of greatest score and passes, and finds it whenever all others score less |
| `ZipReopen.WrittenIsCandidate` | tests/deps/zip-0.2.1/zip/private/libzip_all.c:3331-3405 | wherever else the magic number occurs, the written directory is a candidate |
| `ZipReopen.CommentKeptIff` | tests/deps/zip-0.2.1/zip/private/libzip_all.c:1595-1614 | an accepted archive comment is written as it was given exactly if it is empty, or shorter than 65536 bytes in an archive not opened as a torrentzip; at 65536 it is lost |
| `ZipReopen.OldCommentKept` | tests/deps/zip-0.2.1/zip/private/libzip_all.c:2057-2083 | a comment that was not set is the one of the opened archive, unless that was a torrentzip |
| `ZipReopen.LongestCommentLost` | tests/deps/zip-0.2.1/zip/private/libzip_all.c:2815-2840 | a comment of 65536 bytes is accepted by any opened archive and written as none |
| `ZipReopen.TextsKeptIff` | tests/deps/zip-0.2.1/zip/private/libzip_all.c:1683-1702 | names and file comments are written as they are exactly if they are shorter than 65536 bytes |
| `ZipReopen.MembersFailIff` | tests/deps/zip-0.2.1/zip/private/libzip_all.c:1622-1722 | writing a list of entries fails exactly if one of them cannot be written |
| `ZipReopen.CloseFailsIff` | tests/deps/zip-0.2.1/zip/private/libzip_all.c:1547-1790 | closing fails exactly if something changed and a survivor cannot be read or packed |
| `ZipReopen.CloseOutcome` | tests/deps/zip-0.2.1/zip/private/libzip_all.c:1547-1580 | closing does nothing exactly if no entry, comment or flag changed, and takes the file away exactly if something did and every entry is deleted |
| `ZipReader.ZipFile.FillBuf` | tests/deps/zip-0.2.1/zip/private/libzip_all.c:2435-2468 | delivers the next bytes of the region, as many as asked or left, and reports a premature end of file exactly if none are left |
| `ZipReader.ZipFile.Read` | tests/deps/zip-0.2.1/zip/private/libzip_all.c:3618-3653 | one read is the pure step on the progress; both byte counters stay equal throughout |
| `ZipReader.DeliveredBySum` | tests/deps/zip-0.2.1/zip/private/libzip_all.c:3618-3653 | reads of any sizes deliver, concatenated, exactly the front of the region as far as the sizes reach |
| `ZipReader.RunAppend` | tests/deps/zip-0.2.1/zip/private/libzip_all.c:3618-3653 | two runs of reads one after the other are one run |
| `ZipReader.RunHonest` | tests/deps/zip-0.2.1/zip/private/libzip_all.c:3618-3653 | errors and end of file show up at the end only, and are the final ones |
| `ZipReader.VerdictBySum` | tests/deps/zip-0.2.1/zip/private/libzip_all.c:3618-3653 | however the reads are cut, one more read behind the end says: premature end if bytes are missing, a wrong checksum if it is compared and differs, and otherwise no error |
| `ZipReader.OpenEntry` | tests/deps/zip-0.2.1/zip/private/libzip_all.c:2340-2430 | opening succeeds exactly if the local header can be read and the data needs no unpacking, with the region behind that header |
| `ZipReader.SliceReader.Open` | tests/deps/zip-0.2.1/zip/private/libzip_all.c:3866-3884 | skipping is the pure loop with its 32-bit counter, for any offset: after any number of turns it has come back with success, with an error, or not yet, and the reader is where the loop says |
| `ZipReader.SliceReader.Read` | tests/deps/zip-0.2.1/zip/private/libzip_all.c:3866-3901 | one read of a slice is the pure step, cut at the length |
| `ZipReader.SliceDelivered` | tests/deps/zip-0.2.1/zip/private/libzip_all.c:3866-3901 | reads of any sizes deliver exactly the slice from offset for length, cut at the end of the entry |
| `ZipReader.SkipOutcome` | tests/deps/zip-0.2.1/zip/private/libzip_all.c:3866-3884 | the loop ends in one way only, with success exactly if the bytes before the offset are all there and the offset is below 2 GB |
| `ZipReader.SkipStuck` | tests/deps/zip-0.2.1/zip/private/libzip_all.c:3866-3884 | in a complete entry with a right checksum the loop goes on for ever if the offset is behind the end or not below 2 GB |
| `ZipReader.OpenReturnsIff` | tests/deps/zip-0.2.1/zip/private/libzip_all.c:3866-3884 | the skipping loop comes back exactly if the offset is not behind the entry and below 2 GB, or the entry is cut short, or its checksum is wrong; then with success exactly if the bytes are there and the offset is below 2 GB |
| `ZipReader.OpenNeverReturns` | tests/deps/zip-0.2.1/zip/private/libzip_all.c:3866-3884 | any stored entry of a file, opened the way a slice is, and any offset behind its end or from 2 GB on: no number of turns is enough |
| `ZipCycle.CopiedEntryReadsAlike` | tests/deps/zip-0.2.1/zip/private/libzip_all.c:1676-1716 | an entry copied to a new file reads as it did in the old one for every sequence of sizes, errors and checksum verdict included |
| `ZipCycle.EditCloseReopen` | tests/deps/zip-0.2.1/zip/private/libzip_all.c:1547-1790 | the whole cycle: from a consistent archive as opened, through any edits of entries, comment and flags that leave each survivor a name, closing writes a well written file, accepted by the check exactly if its last entry ends below 2 GB, and opening finds it exactly if it is the best candidate |
| `ZipCycle.EditedClosable` | tests/deps/zip-0.2.1/zip/private/libzip_all.c:1547-1790 | after edits, names for the survivors and no torrentzip are all that closing needs |
| `ZipCycle.LargeEntryRejected` | tests/deps/zip-0.2.1/zip/private/libzip_all.c:3123-3176 | a written file with an entry of 2 GB or more is refused by the check |
| `ZipCycle.LargeArchiveRejected` | tests/deps/zip-0.2.1/zip/private/libzip_all.c:3123-3176 | such a file is written without an error from a new archive with one entry |
| `ZipCycle.WrittenEntryReads` | tests/deps/zip-0.2.1/zip/private/libzip_all.c:2340-2430 | reading an entry of a written file as it is stored delivers the data written for it, and ends without an error unless a stored entry has another checksum; that of deflated data is not compared |
| `LinenoiseScreen.ClearUpsRun` | lib/wrappers/linenoise/linenoise.c:566-571 | the loop of erase-and-up blanks exactly the rows it passes |
| `LinenoiseScreen.EraseRun` | lib/wrappers/linenoise/linenoise.c:554-576 | from a synchronised screen the erasing part blanks every used row and ends at its start |
| `LinenoiseScreen.PrintsRun` | lib/wrappers/linenoise/linenoise.c:578-580 | printed text fills the cells row by row with deferred wrap, and nothing else |
| `LinenoiseScreen.PlaceRun` | lib/wrappers/linenoise/linenoise.c:585-617 | whatever rows were used, the last part puts the cursor at the row and column of the buffer position, the exact-multiple newline included |
| `LinenoiseScreen.RefreshShows` | lib/wrappers/linenoise/linenoise.c:543-624 | one refresh shows exactly prompt and text, blanks every other used row, leaves rows above alone, and keeps old position and maximum in step with the screen |
| `LinenoiseScreen.PromptShows` | lib/wrappers/linenoise/linenoise.c:768-794 | writing the prompt gives the synchronised screen that editing starts from |
| `LinenoiseScreen.EveryShotShows` | lib/wrappers/linenoise/linenoise.c:543-624 | over all runs of refreshes each one shows its own text only, with the cursor at (plen+pos)/cols, (plen+pos)%cols |
| `LinenoiseState.Editor.RefreshMultiLine` | lib/wrappers/linenoise/linenoise.c:543-624 | the method on the editor fields writes that sequence and leaves the screen in step |
| `LinenoiseState.MemMove` | lib/wrappers/linenoise/linenoise.c:638-663 | the moved characters are those before the call, also where the ranges overlap |
| `LinenoiseEdit.MovingKeepsText` | lib/wrappers/linenoise/linenoise.c:665-694 | moving never changes the text |
| `LinenoiseEdit.InsertUndone` | lib/wrappers/linenoise/linenoise.c:638-742 | an insertion is undone by backspace, and by moving left and deleting |
| `LinenoiseEdit.TransposeReorders` | lib/wrappers/linenoise/linenoise.c:847-855 | transposing swaps the two neighbours of the cursor and nothing else, and where the cursor ends |
| `LinenoiseEdit.PrevWordRemoved` | lib/wrappers/linenoise/linenoise.c:746-758 | what delete-previous-word takes is all the blanks left of the cursor and then the whole word before them |
| `LinenoiseEdit.EditedAsText` | lib/wrappers/linenoise/linenoise.c:638-758 | what each command does to the whole text and to the position of the cursor in it |
| `LinenoiseState.Editor.EditInsert` | lib/wrappers/linenoise/linenoise.c:638-663 | inserting left of the cursor, or nothing when the buffer is full; buffer invariant and screen kept |
| `LinenoiseState.Editor.EditMoveLeft` | lib/wrappers/linenoise/linenoise.c:665-670 | refines moving one character across |
| `LinenoiseState.Editor.EditMoveRight` | lib/wrappers/linenoise/linenoise.c:673-678 | refines moving one character across |
| `LinenoiseState.Editor.EditMoveHome` | lib/wrappers/linenoise/linenoise.c:681-686 | refines moving all characters to the right part |
| `LinenoiseState.Editor.EditMoveEnd` | lib/wrappers/linenoise/linenoise.c:689-694 | refines moving all characters to the left part |
| `LinenoiseState.Editor.EditDelete` | lib/wrappers/linenoise/linenoise.c:724-731 | refines dropping the first character of the right part |
| `LinenoiseState.Editor.EditBackspace` | lib/wrappers/linenoise/linenoise.c:734-742 | refines dropping the last character of the left part |
| `LinenoiseState.Editor.EditDeletePrevWord` | lib/wrappers/linenoise/linenoise.c:746-758 | refines dropping trailing blanks and then the last word of the left part |
| `LinenoiseState.Editor.EditTranspose` | lib/wrappers/linenoise/linenoise.c:847-855 | refines swapping the characters around the cursor, which moves on unless at the last one |
| `LinenoiseState.Editor.EditKillLine` | lib/wrappers/linenoise/linenoise.c:926-930 | refines the empty line |
| `LinenoiseState.Editor.EditKillToEnd` | lib/wrappers/linenoise/linenoise.c:931-935 | refines dropping the right part |
| `LinenoiseState.Editor.Edit` | lib/wrappers/linenoise/linenoise.c:768-945 | every command refines its pure form, keeps pos <= len <= buflen with a NUL at len, and leaves the screen showing the result |
| `LinenoiseState.Editor.EditHistoryNext` | lib/wrappers/linenoise/linenoise.c:700-720 | browsing refines the pure move on history, index and line, both ends included |
| `LinenoiseEdit.MoveKeepsOverlayIff` | lib/wrappers/linenoise/linenoise.c:700-720 | a move loses nothing exactly if the line it shows is shorter than the buffer |
| `LinenoiseEdit.MoveShows` | lib/wrappers/linenoise/linenoise.c:700-720 | going up or down puts the line in its place in the history and shows the next one, cut to fit, with the cursor at its end; at either end the line stays |
| `LinenoiseEdit.LongLineLost` | lib/wrappers/linenoise/linenoise.c:700-720 | for every size of the buffer and every line that does not fit it, going up to that line cuts it in the history |
| `LinenoiseEdit.MovesKeepOverlay` | lib/wrappers/linenoise/linenoise.c:700-720 | any number of moves within range keeps the overlaid history |
| `LinenoiseEdit.UpThenDownRestores` | lib/wrappers/linenoise/linenoise.c:700-720 | k steps up and k steps down restore line, index and history |
| `LinenoiseHistory.History.Add` | lib/wrappers/linenoise/linenoise.c:1108-1138 | the stored lines after an addition, bounded, without consecutive duplicates, and the result code |
| `LinenoiseHistory.History.SetMaxLen` | lib/wrappers/linenoise/linenoise.c:1141-1167 | keeps the most recent lines in order and refuses lengths below one |
| `LinenoiseHistory.LatestAdded` | lib/wrappers/linenoise/linenoise.c:1108-1138 | adding to the latest lines gives the latest of the extended lines, or the same after a duplicate |
| `LinenoiseHistory.AddedAllIsLatest` | lib/wrappers/linenoise/linenoise.c:1108-1138 | any run of additions stores exactly the latest lines of the run after collapsing consecutive duplicates |
| `LinenoiseSession.EditLine` | lib/wrappers/linenoise/linenoise.c:768-945 | a whole session ends as the pure session does, with the same line and history, and before every key the screen shows prompt and line and the cursor is in its place |
| `LinenoiseSession.ApplyKey` | lib/wrappers/linenoise/linenoise.c:814-945 | one key is the pure step, and the screen shows it |
| `LinenoiseSession.CodeDecoded` | lib/wrappers/linenoise/linenoise.c:814-945 | every code of every key, control characters and escape sequences, is recognised wherever it stands |
| `LinenoiseSession.DecodedCode` | lib/wrappers/linenoise/linenoise.c:814-945 | nothing else is taken for a key |
| `LinenoiseSession.KeysPressed` | lib/wrappers/linenoise/linenoise.c:768-945 | a session that begins with the codes of some keys goes on as if they had been pressed |
| `LinenoiseSession.UpAndEnter` | lib/wrappers/linenoise/linenoise.c:700-846 | going up once and Enter yields the latest line of the history, cut to fit |
| `LinenoiseSession.HomeAndType` | lib/wrappers/linenoise/linenoise.c:768-945 | typing a line, going home and typing one more character puts that one in front |
| `LinenoiseSession.Quit` | lib/wrappers/linenoise/linenoise.c:814-846 | how Enter, Ctrl-C and Ctrl-D on an empty line end the session and leave the history |
| `LinenoiseSession.TypedLineAccepted` | lib/wrappers/linenoise/linenoise.c:768-945 | typing a line and Enter yields the line, cut at the size of the buffer |
| `LinenoiseSession.EndingDecides` | lib/wrappers/linenoise/linenoise.c:768-846 | a session that does not browse ends as its first quitting key says, takes its entry of the history back after Enter and after Ctrl-D on an empty line, leaves it after Ctrl-C and at the end of input, and changes nothing else of the history |
| `LinenoiseSession.LookingKeepsLines` | lib/wrappers/linenoise/linenoise.c:700-846 | the same for a session that goes up and down at will but only looks at lines which fit the buffer |
| `LinenoiseSession.HistoryKeptIff` | lib/wrappers/linenoise/linenoise.c:768-846 | such sessions leave the history as it was exactly if, when the input ends them with the entry taken back, there was room for it and the last line was not empty, and otherwise if the last line was empty already |
| `LinenoiseSession.HistoryNotKept` | lib/wrappers/linenoise/linenoise.c:768-846 | Ctrl-C after one line, Enter on a full history, and Enter after an empty line |
| `LinenoiseSession.KeyChangesSlotOnly` | lib/wrappers/linenoise/linenoise.c:814-945 | one key changes at most the overlaid entry it is pressed at, to the new text of the line, and moving keys none, if the line gone to fits the buffer |
| `LinenoiseSession.KeysChangeTouchedOnly` | lib/wrappers/linenoise/linenoise.c:814-945 | over any run of keys, as long as the lines gone to fit the buffer, every entry of the overlaid history at which nothing was edited is as it was |
| `NimStrings.CstrToNimstr` | tools/dochack/dochack.js:321-357 | no hole is left in the array, and it is the UTF-8 form of the code points taken |
| `NimStrings.PointsExactIff` | tools/dochack/dochack.js:321-357 | the code points stand for the string in UTF-16 exactly if it is well formed |
| `NimStrings.DecodeEncoded` | tools/dochack/dochack.js:321-357 | UTF-8 decoding undoes encoding for every sequence of code points |
| `NimStrings.EncodeDecoded` | tools/dochack/dochack.js:67-117 | UTF-8 encoding undoes decoding for every byte string that decodes |
| `NimStrings.UnescapeEscapes` | tools/dochack/dochack.js:67-117 | percent escapes, with a zero before a single digit, stand for the bytes they were made from |
| `NimStrings.ToJSStr` | tools/dochack/dochack.js:67-117 | the loop over ASCII characters and runs of other bytes builds the pure result |
| `NimStrings.ToJsDecodes` | tools/dochack/dochack.js:67-117 | decoding run by run gives the UTF-16 form of the whole, for every sequence of code points |
| `NimStrings.ToJsOfValid` | tools/dochack/dochack.js:67-117 | the same stated on the bytes |
| `NimStrings.RoundTripIff` | tools/dochack/dochack.js:67-357 | to Nim and back, a string returns unchanged exactly if it is well-formed UTF-16; the bytes in between are always valid UTF-8 |
| `NimStrings.LoneSurrogateLost` | tools/dochack/dochack.js:67-357 | a surrogate on its own does not come back |
| `NimStrings.SurrogateSwallows` | tools/dochack/dochack.js:67-357 | what comes back for a surrogate is a pair made of it and of the unit that follows, or of it and of nothing |
| `NimStrings.RfcExamples` | tools/dochack/dochack.js:321-357 | the encodings meet the examples of RFC 3629 and RFC 2781 |
| `NimStrings.OrIsPlus` | tools/dochack/dochack.js:321-357 | or of bit fields that do not overlap is addition |
| `NimStrings.MaskIsLow` | tools/dochack/dochack.js:321-357 | a mask of ones leaves the low bits |
| `NimStrings.PairIs` | tools/dochack/dochack.js:339-341 | the masks and shifts that join two surrogates |
| `NimStrings.MultiByte` | tools/dochack/dochack.js:326-351 | the lead and continuation bytes that the shifts, masks and ors of the encoder come to |
| `FuzzyMatch.RunMatch` | tools/dochack/dochack.js:1261-1389 | the checked loop returns the pure verdict, never indexes out of range, and raises no overflow for strings up to 29304 units; matched means a positive score; a word of n small letters scores 5n(n-1)/2+30 against itself; a string with no colon and nothing of the pattern is not matched |
| `FuzzyMatch.StepKeepsInv` | tools/dochack/dochack.js:1261-1389 | one of the seven score states throughout; score between -3k and the sum of 5i+20 up to k, for k units read |
| `FuzzyMatch.StepDecreases` | tools/dochack/dochack.js:1261-1389 | every turn decreases (units left in the string, units left in the pattern), despite the reset at a colon |
| `FuzzyMatch.ScoreRange` | tools/dochack/dochack.js:1261-1389 | the final score lies between -3|str| and that bound plus the bonus |
| `FuzzyMatch.MatchIgnoresPatternCase` | tools/dochack/dochack.js:1246-1389 | patterns that differ in the case of ASCII letters only match alike |
| `FuzzyMatch.HitRun` | tools/dochack/dochack.js:1302-1333 | hits in a row are worth 5, 10, 15 and so on, and 20 more where a word ends |
| `FuzzyMatch.LeadingMisses` | tools/dochack/dochack.js:1349-1367 | misses at the start cost 3 each, four of them at most |
| `FuzzyMatch.LaterMisses` | tools/dochack/dochack.js:1349-1373 | later misses cost 1 each, and end a row of hits unless a word had ended with it |
| `FuzzyMatch.WordFound` | tools/dochack/dochack.js:1261-1389 | the exact score of a word, in any case of its letters, behind anything that does not match: less inside a word of the string than at the start of one |
| `FuzzyMatch.WordBehindColon` | tools/dochack/dochack.js:1293-1300 | the first colon starts the pattern anew at half of the score |
| `FuzzyMatch.TwoWordsFound` | tools/dochack/dochack.js:1261-1389 | the exact score of two words that are apart in the string |
| `FuzzyMatch.PhraseFound` | tools/dochack/dochack.js:1283-1291 | a blank, dot or underscore between two words is passed over as if it were not there |
| `Toc.FindUncovered` | tools/dochack/dochack.js:853-901 | the recursion over mutable marks computes the pure pruning |
| `Toc.UncoveredKeepsLeaves` | tools/dochack/dochack.js:853-901 | pruning keeps exactly the unmarked leaves, in order and under the same headings, is null exactly if there are none, and leaves no empty group |
| `Toc.MergeTocs` | tools/dochack/dochack.js:903-930 | the pruned old table followed by the new entries |
| `Toc.TypePass` | tools/dochack/dochack.js:942-976 | the pass for one type marks it and lists, by title and address, each unmarked proc that belongs to it under a copy of it |
| `Toc.BuildToc` | tools/dochack/dochack.js:932-986 | the new table, regrouped entry by entry, and exactly which elements are marked afterwards |
| `Toc.TakenIff` | tools/dochack/dochack.js:946-972 | a pass takes exactly the unmarked procs whose single attached type has the text of the type |
| `Toc.TakenInOrder` | tools/dochack/dochack.js:946-972 | each is taken once, in the order of first occurrence |
| `Toc.MarkedIff` | tools/dochack/dochack.js:932-986 | afterwards exactly the types, the procs that belong to one, and what was marked before are marked |
| `Toc.ListedIff` | tools/dochack/dochack.js:932-986 | a proc is listed under exactly the first type it belongs to, unless it was marked or is itself a type already passed |
| `Toc.BuiltBelow` | tools/dochack/dochack.js:903-986 | below the root: the old leaves that are not marked, then one entry per type |
| `Toc.TableRegrouped` | tools/dochack/dochack.js:903-986 | the table that is returned: the old leaves that are neither marked nor types nor procs of a type, in order; then an entry for each type with the links of exactly the procs that have it for their first type, once and in order |
| `Toc.RootKeptIff` | tools/dochack/dochack.js:903-930 | for any old table and any types, no leaf is lost in merging exactly if the root is no unmarked leaf itself or there are no types |
| `Toc.ExtractItems` | tools/dochack/dochack.js:776-811 | the recursion over the table appends the headings right below every outermost group of the title, in order |
| `Toc.ItemsAre` | tools/dochack/dochack.js:776-811 | the items are the headings of all entries whose nearest group, and no group above it, has the title, in the order of the page |
| `Toc.GroupBy` | tools/dochack/dochack.js:1131-1149 | types and procs are the items of the table itself; the result is the table built of them, or a failure exactly if an item that is looked at has no heading |
| `Toc.GroupedTable` | tools/dochack/dochack.js:1131-1149 | what is shown is the table regrouped by its own types and the items of its six groups of procs; it fails exactly if one that is looked at has no heading |
| `Toc.GroupedKeepsLeaves` | tools/dochack/dochack.js:903-1149 | a table whose types are its own items never loses a leaf, whatever its root: the new one has all unmarked leaves in order and then those of the new entries |
| `Toc.ProcConserved` | tools/dochack/dochack.js:853-986 | an unmarked proc that names a type has its link below the copy of the first such type and of no other, and no leaf in the old part; any other is left there and listed nowhere |
| `AliasAnalysis.CollectImportantNodes` | compiler/aliasanalysis.nim:76-93 | collects the nodes of the access path, or none exactly if the expression is no path |
| `AliasAnalysis.CompareAll` | compiler/aliasanalysis.nim:99-129 | the comparing loop with its early return computes the verdict on the two paths |
| `AliasAnalysis.PathLocates` | compiler/aliasanalysis.nim:76-93 | the nodes that are collected are the steps of the location of the expression |
| `AliasAnalysis.Aliases` | compiler/aliasanalysis.nim:59-129 | the whole answer: yes only if the location of obj is a prefix of that of field under every valuation of run-time indices, no only if it is under none |
| `AliasAnalysis.Sound` | compiler/aliasanalysis.nim:59-129 | against locations defined on the expressions: yes means that the location of obj contains that of field under every valuation of the run-time indices, no that it never does; an expression has none exactly if it is built on no variable |
| `AliasAnalysis.Exact` | compiler/aliasanalysis.nim:59-129 | the three answers are exact, on locations, when each run-time index may have any value of its own |
| `AliasAnalysis.VerdictsCompose` | compiler/aliasanalysis.nim:59-129 | yes after yes is yes, and yes after maybe is maybe |
| `AliasAnalysis.YesMaybeIsNeverNo` | compiler/aliasanalysis.nim:59-129 | maybe after yes is never no |
| `AliasAnalysis.SelfAlias` | compiler/aliasanalysis.nim:59-129 | an expression built on a variable never is apart from itself, and is surely within itself exactly if it has no run-time index |
| `AsciiTables.Measure` | compiler/asciitables.nim:14-40 | the first pass finds the width of every column and the number of newlines |
| `AsciiTables.HandOut` | compiler/asciitables.nim:42-69 | the second pass hands out every row with every column, empty cells for missing fields |
| `AsciiTables.ParseTableCells` | compiler/asciitables.nim:10-69 | the cells of the table: cell (r,c) is the c-th field of line r or empty, with the width of its column |
| `AsciiTables.WidthsAreMaxima` | compiler/asciitables.nim:14-40 | a width is the length of some field of its column and no field is longer |
| `AsciiTables.AlignTable` | compiler/asciitables.nim:71-83 | the output is all rows of padded fields, joined |
| `AsciiTables.PrintedIsAligned` | compiler/asciitables.nim:71-83 | printing cell by cell is joining padded rows |
| `AsciiTables.SplitJoin` | compiler/asciitables.nim:10-69 | splitting undoes joining when no part has the separator |
| `AsciiTables.AlignedLines` | compiler/asciitables.nim:71-83 | the lines of the output are the printed rows, for any separator without a newline |
| `AsciiTables.ColumnsAlign` | compiler/asciitables.nim:71-83 | in every line of the output column c begins at the same place, with the field of that line, then fill up to the width, then the separator or the end of the line |
| `AsciiTables.NewlineKeptIff` | compiler/asciitables.nim:71-83 | the output ends with a newline just where the input does, exactly unless several lines with nothing but delimiters on them are printed without a separator |
| `AsciiTables.NewlineAdded` | compiler/asciitables.nim:71-83 | a newline and a tab, aligned without a separator, give a newline |
| `AsciiTables.AlignedRows` | compiler/asciitables.nim:71-83 | with the delimiter as separator the output has the padded rows and the same widths |
| `AsciiTables.AlignedTwice` | compiler/asciitables.nim:71-83 | with the delimiter as separator, and fill different from it, aligning is idempotent |
| `SysLock.NextKeepsInv` | lib/genode_cpp/syslocks.h:28-56 | every step of every thread keeps: at most one thread inside each mutex, and the flag equals the second mutex except between two named steps |
| `SysLock.LockIsSafe` | lib/genode_cpp/syslocks.h:28-56 | for any number of threads and any interleaving: while the first mutex is free the flag says whether the second is held, and at most one thread holds the lock |
| `SysLock.TryNeverWaits` | lib/genode_cpp/syslocks.h:35-49 | tryAcquireSys never waits for the second mutex; its guarded read is exact, its unguarded one sees a holder or one about to be |
| `SysLock.WaitingIsForever` | lib/genode_cpp/syslocks.h:28-33 | once acquireSys waits for the second mutex, no interleaving ever lets it on, because the release needs the mutex it has |
| `SysLock.AcquireGoesOnIff` | lib/genode_cpp/syslocks.h:28-56 | acquireSys can go on from there exactly if nobody holds the lock at that moment |
| `SysLock.ContendedAcquireStuck` | lib/genode_cpp/syslocks.h:28-56 | two threads and eight steps from the start lead to a state that no further steps leave |
| `SysLock.TryAlone` | lib/genode_cpp/syslocks.h:35-56 | undisturbed, tryAcquireSys gives up when the lock is held and takes it otherwise, and releaseSys restores the state |

## Left out

libzip:

- I/O errors, failing memory, temporary file names, renaming and permissions of the finished file.
- torrentzip: sorting, normalising and the checksum in the comment; closing asks for that flag to be clear.
- The inside of deflate, inflate and `crc32`, and reading entries through inflate.
- NULL arguments.
- ZipArchive.Archive.NameLocate: lookups with flags (case-insensitive, without directories, original names).
- ZipReader.OpenEntry: the entry is given, so it leaves out the checks of index and changed data before it, and the reader that inflates.
- ZipReopen.WrittenFileIsConsistent: asks for output below 4 GB and fewer than 65536 survivors, where the 32-bit offsets and the 16-bit counts of the format end, and for names whose length cut to 16 bits is not zero; entries left nameless by a failed `zip_add` are excluded.
- ZipCycle.EditCloseReopen: has the same limits.
- ZipFind.FindCentralDir: when there are candidates and all are refused, it does not say which of their errors is reported.
- ZipReader.ZipFile.Read: one read asks for less than 2^31 bytes.
- ZipReader.ZipFile.FillBuf: likewise, its counters are `int` too.
- ZipReader.SliceReader.Read: likewise, the request is cut to an `int`.
- ZipReader.SliceReader.Open: the overflow of the counter, which the language leaves open, is taken as two's complement wrap-around.

linenoise:

- Terminal modes, cursor position queries, hints, completion, Ctrl-L, saving and loading the history, single-line mode.
- LinenoiseSession.EditLine: escape sequences cut off by the end of input are ignored, NUL and Ctrl-L are not typed, and control functions are written as such and not as bytes.
- LinenoiseSession.HistoryKeptIff: sessions that go up or down and also edit are left out; what they leave alone is said by `KeysChangeTouchedOnly`.
- The screen has one cell per character, unbounded rows below, and a prompt shorter than a row.

dochack:

- DOM creation and styling, fetching, timers and copying over the JavaScript heap; null strings.
- FuzzyMatch.RunMatch: 29304 is a sufficient length for no overflow, not the greatest one.
- Toc.MergeTocs: table entries are values, so it does not show that a root that is a leaf is shared with the old table; it would be changed in place only if it came with types, which `groupBy` never gives it. Arrays that change while they are walked are excluded.
- Toc.GroupBy: the table is given, with its headings from the page; after a failure it does not say what is marked.

compiler:

- `skipConvDfa` and `isAnalysableFieldAccess`, which only look through nodes.
- AliasAnalysis.Aliases: literal indices are integers; on string and float literals the code reads an integer value that is not there.

Genode:

- `SysCond`, and the reordering of unsynchronised reads and writes: memory is sequentially consistent.
- A thread other than the holder releasing the lock.
