# JSDB's C++ library: a verified model

JSDB (`rs/`) is a small application server whose C++ library carries its own file formats and codecs.
This project models the parts of that library whose correctness is not visible from one function body
and proves what they are for:

- **GIF writer** (`gif_main.cpp`). A GIF reader is written from the GIF89a specification (sub-blocks,
  variable-width LZW, interlacing), independent of the writer. `WriteRLE`'s output decodes to the image
  if and only if all pixels are below 128 and no maximal run is 7261, 14521, ... pixels long; `Write` works
  for every size; the interlaced rows come back; `Fill` recolours exactly a 4-connected component.
- **DBF tables** (`dbf_*.cpp`). The data file is a byte array, the table a sequence of records. Any run
  of reads of records and fields, saves, updates, appends, marks, resizes and reloads through the record
  cache, which fills and expires on the way, gives what the same run gives on a plain sequence of records;
  `UpdateCase` is a compare-and-swap; a created header loads back the same if and only if every field of
  it can be written whole and a header size set beforehand stands for its fields.
- **Codecs.** Reading a written XML tag, un-escaping, parsing a composed MIME tree, decoding Base64 with
  noise, and loading a dot-stuffed message give back what was put in, with exact conditions where the
  code has a limit.
- **Packed sets and arithmetic.** Runs of edits on a multiple-response field refine sets of codes if and
  only if the byte behind the field does no harm; the unrolled Adler-32 equals the byte-wise one and never
  overflows 32 bits; the windowed search for the ZIP end record equals the naive one.
- **Counted handles** (`pointer.h`). `TEnvelope` refines shared ownership without counters, also where
  objects hold handles themselves and a release cascades; an assignment touches freed memory if and only
  if the handle assigned to is a sole holder and is the source, or one of the two lives in an object that
  hangs on it.

Code that changes things in place is modelled by classes, arrays and loops, each method proved against a
specification function; the laws are lemmas about those functions and methods that run whole programs.

## Layout

| files | what they hold |
|---|---|
| `Bytes`, `Streams`, `Params` | byte strings, C strings, streams, the parameter list |
| `GifLzw`, `GifRuns`, `GifReader` | the GIF reader and what it makes of the writer's blocks |
| `FloodFill`, `GifImage` | connected components; the image class and both writers |
| `DbfLayout`, `DbfFile`, `DbfCache`, `DbfStore`, `DbfRuns` | records in a file, the cache, the table, runs |
| `DbfHeader`, `DbfRecord` | header printing and parsing; field access and commits |
| `MultText`, `MultResp`, `MultRuns` | codes of a text; the in-place editors; runs of them |
| `Base64`, `MailLines`, `MailLoad` | Base64; sending text and loading messages |
| `HtmlText`, `CText`, `XmlScan`, `XmlTag` | escapes; tag reading and writing |
| `XmlRoundTrip`, `XmlForms` | the round trip; attributes in all their written forms |
| `MimeLines`, `MimeHeader`, `MimeSplit`, `MimeParse`, `MimeRoundTrip` | lines, headers, parts, the parser, the round trip |
| `Adler`, `ZipFind`, `Envelope` | checksum; end-record search; counted handles |

## Where the code surprises

Each of these is proved, not assumed; the member named states it.

- A run of 7261 equal pixels (or 7261 + 7260 t) makes `WriteRLE` emit the End Of Information code and cut
  the image short (`GifImages.GifImage.WriteRLE`, `GifRuns.SolidImage`).
- The comment in `Write` guesses 127 literals per clear code; 126 is the limit (`GifRuns.LiteralBlockLimit`).
- `Fill` turns interlacing off without clearing the header's interlace bit; a reader then puts the rows of
  the written file elsewhere, so that it shows the image if and only if the rows that trade places are
  equal (`GifImages.GifImage.FillInterlacedAndWrite`, `GifReader.ShownIfRowsStay`); for all images of a size
  that is so only up to two rows (`GifReader.PlainRowsUnderInterlaceFlag`).
- `Fill` with a colour whose low byte is 0 recurses without end if and only if the open pixel has an open
  neighbour (`FloodFill.ZeroFillReturns`).
- `SetDeleteFlag` on a file that refuses writes leaves a mark in the cache that the file does not have
  (`DbfStores.Table.SetDeleteFlag`).
- Reading record N+1 succeeds when a single stray byte follows record N (`DbfStores.Table.ReadCaseRawBuf`).
- `SaveCaseData` returns 1, a bool, where its declaration promises a case number
  (`DbfStores.Table.SaveCaseData`).
- `CommitChanges` forgets its backup even when it loses, so that a second call overwrites a record it
  has never seen (`DbfRecords.CommitTwice`).
- Virtual fields count in the header size but are not written. With a declared size such a table does not
  load at all (`DbfHeaders.CountedFormLoads`); without one it loads with the fields missing and a header
  size that puts every record 32 bytes early for each of them (`DbfHeaders.ScannedFormLosesVirtualFields`).
- `WriteCaseRawBuf` leaves the cache with the old record if and only if it changes a record that is cached
  (`DbfStores.Table.WriteCaseRawBuf`).
- `HasMultResp` looks behind the field; it is right for every code if and only if the end of the field is
  safe (`MultResps.HasIsRightWhenTerminated`). `ClearMultResp` gives up on the last code of a full field
  followed by a comma (`MultTexts.StuckClear`). `SetMultResp` writes its comma before it checks for room,
  so that toggling twice loses the last of several codes in a full field that a NUL or a blank follows; in
  front of anything else that code resists and stays (`MultRuns.ToggleTwice`, `MultRuns.StepRefinesSet`).
  A field in front of other text can therefore answer wrongly (`MultRuns.RunsAreRightIfSafe`).
- `Load` cuts lines into pieces of 255 bytes and unstuffs each piece (`MailLoad.SendThenLoad`).
- `FindDirectory` misses an end record whose comment is longer than 65513 bytes, though the format allows
  65535, and that of an archive without entries; a mark inside the comment is taken for the record
  (`ZipFind.EndRecordIsFound`, `ZipFind.EmptyArchiveIsMissed`, `ZipFind.MarkInTheCommentIsFound`).
- `HTMLUnEscape` jumps over its test for the end behind a named entity and runs past the NUL; the string
  is still right (`HtmlText.HTMLUnEscape`).
- A tag whose type ends in a slash and that has nothing behind it reads as a closed tag; a parameter name
  that starts with 0xFF ends the reading unless it comes first, and a last name of just a slash reads as
  the end mark (`XmlRoundTrips.ReadWhatWasWritten`).
- Escaping the letters n, t or r with `CEscape`'s extra list does not survive `CUnEscape`
  (`CText.UnescapeUndoesEscape`).
- A quoted MIME boundary is cut at a blank, tab or semicolon (`MimeParses.QuotedBoundary`).
- Assigning a sole `TEnvelope` to itself deletes its object, and so does `p = p->next` when `p` is the only
  handle on its node: the node takes `next` with it before `next` is read (`Envelopes.Memory.Assign`,
  `Envelopes.LinkOfTheNodeIsLost`).

## Model

| member | source | states |
|---|---|---|
| `GifImages.GifImage.constructor` | rs/gif_main.cpp:321-385 | a new image is blank and not interlaced; its header is given byte by byte and is one the reader accepts |
| `GifImages.HeaderIsRead` | rs/gif_main.cpp:329-383 | a GIF reader finds the size, interlace flag and code size 7 behind any such header |
| `GifImages.GifImage.WriteRLE` | rs/gif_main.cpp:161-227 | the file written for an image of at least one pixel decodes to the image if and only if all pixels are below 128 and no maximal run has length 7261, 14521, ... |
| `GifImages.GifImage.SendAllRuns` | rs/gif_main.cpp:180-225 | the blocks sent account for every pixel, or for those before the first stray run |
| `GifImages.GifImage.SendRunBlock` | rs/gif_main.cpp:188-209 | a run block advances past the pixels its codes stand for and keeps the writer's place among the runs |
| `GifImages.GifImage.FillRunBlock` | rs/gif_main.cpp:189-207 | the codes of a run block are the colour, then 129, 130, ..., and a last code for what is left |
| `GifImages.GifImage.BufferShortRun` | rs/gif_main.cpp:210-219 | a short run joins the pending literals, which go out whenever 120 wait |
| `GifImages.GifImage.ScanRun` | rs/gif_main.cpp:181-187 | the loop stops behind the maximal run of equal pixels |
| `GifImages.Encoder.AfterRunBlock` | rs/gif_main.cpp:188-209 | the invariant of the run-length writer survives a run block, stray or not |
| `GifImages.GifImage.Write` | rs/gif_main.cpp:229-245 | the literal writer's file decodes to the image, for every size, if and only if all pixels are below 128 |
| `GifImages.GifImage.SendLiterals` | rs/gif_main.cpp:233-241 | one sub-block of up to 126 literals continues the decoder by exactly those pixels |
| `GifImages.GifImage.Interlace` | rs/gif_main.cpp:67-102 | the copy holds the rows in Appendix E order, the header bit is set, and a reader shows the original image |
| `GifImages.GifImage.CopyPass` | rs/gif_main.cpp:73-78 | a pass appends its rows to those already stored |
| `GifImages.GifImage.Fill` | rs/gif_main.cpp:129-138 | exactly the 4-connected component of zero pixels around the start changes colour, by calls of bounded depth, for every colour with which the call returns |
| `GifImages.GifImage.FillInterlacedAndWrite` | rs/gif_main.cpp:67-245 | a fill of an interlaced image, written out: a reader shows the filled image with its rows in the order of the four passes, which is the filled image if and only if every row equals the one in whose place it stands |
| `GifRuns.LiteralBlock` | rs/gif_main.cpp:233-241 | a literal block and its clear code append the literals and leave a cleared decoder |
| `GifRuns.LiteralBlockLimit` | rs/gif_main.cpp:236-239 | any number of literals and a clear code are read as those literals and a clear if and only if they are at most 126 |
| `GifRuns.RunCodesRun` | rs/gif_main.cpp:189-199 | after a clear, code 129+m stands for m+1 copies of the run colour |
| `GifRuns.RunBlock` | rs/gif_main.cpp:189-209 | n codes of a run block append 1+2+...+n pixels |
| `GifRuns.LongRunBlock` | rs/gif_main.cpp:197-206 | the 121st code appends the remaining m+1 pixels |
| `GifRuns.BrokenRunBlock` | rs/gif_main.cpp:197-206 | with one pixel remaining the 121st code ends the image one pixel early |
| `GifRuns.SolidImage` | rs/gif_main.cpp:161-227 | a one-colour image has no stray run if and only if its size is 1 or not 1 modulo 7260 |
| `GifReader.InterlaceOrderIsPermutation` | rs/gif_main.cpp:67-102 | for every height the four passes store each row exactly once |
| `GifReader.DeinterlaceGather` | rs/gif_main.cpp:67-102 | reading back rows stored in interlaced order restores the image |
| `GifReader.PlainRowsUnderInterlaceFlag` | rs/gif_main.cpp:98-137 | plain rows under a set interlace flag show unchanged for every image of that size if and only if it has at most two rows or no width |
| `GifReader.ShownIfRowsStay` | rs/gif_main.cpp:67-137 | an image with its rows in plain order under a set interlace flag shows unchanged if and only if every row equals the one that belongs in its place |
| `GifLzw.BitsAreBytes` | rs/gif_main.cpp:161-227 | a bit-level LZW decoder reads a stream of eight-bit codes byte by byte |
| `GifLzw.FramedDecodes` | rs/gif_main.cpp:163-178 | codes framed in sub-blocks decode to what the byte-wise run of the codes yields |
| `GifLzw.DecodedPixelsAreSevenBit` | rs/gif_main.cpp:6-11 | no stream with code size 7 decodes to a pixel of 128 or more |
| `FloodFill.FilledIsComponent` | rs/gif_main.cpp:129-138 | changed pixels that are connected and leave no open neighbour are exactly the component |
| `FloodFill.EveryIndexIsAPoint` | rs/gif_main.cpp:21-30 | every byte of the image is some pixel, so what is said of pixels covers the whole buffer |
| `FloodFill.NeighbourFilled` | rs/gif_main.cpp:132-135 | filling from a neighbour continues the fill without leaving it |
| `FloodFill.ZeroFillReturns` | rs/gif_main.cpp:129-138 | with a zero byte the recursion has bounded depth if and only if the pixel is not open or no neighbour of it is |
| `FloodFill.RecolouredZeroCount` | rs/gif_main.cpp:129-138 | recolouring with a nonzero byte lowers the number of zero pixels, the measure of the recursion |
| `DbfLayout.WriteRecord` | rs/dbf_file.cpp:118-155 | writing one record at its offset, or behind the last one, leaves a well-sized file with that record there and all other records as they were |
| `DbfLayout.SavedRecords` | rs/dbf_file.cpp:118-160 | a save appends one record or replaces one and keeps all others |
| `DbfLayout.BlockIsSavedEach` | rs/dbf_file.cpp:118-155 | saving a block of records at once is saving them one by one |
| `DbfLayout.AppendPosition` | rs/dbf_file.cpp:124-136 | the append offset is that of the record behind the last, stray end byte or not |
| `DbfLayout.SlotRefreshed` | rs/dbf_cache.cpp:88-100 | copying the one changed record to its slot keeps the window equal to the file |
| `DbfLayout.StillCoherent` | rs/dbf_cache.cpp:110-113 | changes to records outside the window keep the window equal to the file |
| `DbfLayout.MarkSlotOnly` | rs/dbf_dat.cpp:192-201 | marking only the cached copy keeps it equal to the file if and only if the record had that mark |
| `DbfLayout.QuotRemIsDivision` | rs/dbf_file.cpp:112 | the repeated subtraction used for offsets is division with remainder |
| `DbfFiles.FlagRoundTrip` | rs/dbf_file.cpp:181-211 | a stored mark reads back as the setting it was stored for |
| `DbfFiles.DataFile.LongPntrRead` | rs/dbf_io.cpp:93-135 | reads what the file has at the offset, and nothing beyond its end |
| `DbfFiles.DataFile.LongPntrWrite` | rs/dbf_io.cpp:26-91 | writes at the offset, or at the end for a negative one, and reports where |
| `DbfFiles.FixedFormatFile.ReadData` | rs/dbf_file.cpp:96-115 | copies the file's bytes of the wanted records and returns the number of the last whole one |
| `DbfFiles.FixedFormatFile.SaveData` | rs/dbf_file.cpp:118-155 | saves of any number of records go through exactly with the right status bits, a well-sized file and at least one record; they change the file as specified and report where |
| `DbfFiles.FixedFormatFile.AppendOffset` | rs/dbf_file.cpp:124-136 | the append position, over a stray byte if there is one, and a refusal for any other size |
| `DbfFiles.FixedFormatFile.AddCase` | rs/dbf_file.cpp:157-160 | returns the old count plus one, adds exactly that record and keeps the others |
| `DbfFiles.FixedFormatFile.RecordCount` | rs/dbf_file.cpp:168-179 | the number of whole records, 0 for an unreadable file |
| `DbfFiles.FixedFormatFile.SetDeleteInBuffer` | rs/dbf_file.cpp:181-211 | only the mark byte changes, and checking returns what it means |
| `DbfFiles.FixedFormatFile.SetDelete` | rs/dbf_file.cpp:213-249 | the file form of the same, one byte at the record's offset |
| `DbfCaches.BufferSize` | rs/dbf_cache.cpp:44-62 | every cache size has room for one record |
| `DbfCaches.Cache.SetBufferSize` | rs/dbf_cache.cpp:38-77 | a resize empties the window and keeps the cache sound, even when memory runs out |
| `DbfCaches.Cache.ReloadData` | rs/dbf_cache.cpp:79-86 | the window holds the file's records from its start on, and every readable one that fits |
| `DbfCaches.Cache.RecordData` | rs/dbf_cache.cpp:115-133 | any readable record is found, and what is found is the file's record, whatever the clock reads |
| `DbfCaches.Cache.ReloadRecord` | rs/dbf_cache.cpp:88-100 | after one record changed in the file the window equals the file again |
| `DbfCaches.Cache.Clear` | rs/dbf_cache.cpp:143-146 | an empty window is sound |
| `DbfCaches.WindowReaches` | rs/dbf_cache.cpp:115-133 | a reload reaches every readable record that fits the buffer |
| `DbfStores.Table.ReadCaseRawBuf` | rs/dbf_dat.cpp:238-254 | cached or not, a readable record is returned as the file has it; past the end only a stray byte makes it succeed |
| `DbfStores.Table.GetDataC` | rs/dbf_dat.cpp:223-236 | a field of a cached table is that slice of the file's record, and its record is cached afterwards |
| `DbfStores.Table.SaveCaseData` | rs/dbf_dat.cpp:264-283 | the file changes as a save does and the cache follows; the result is 1 if it did, except for an append to a window left at case 0 |
| `DbfStores.Table.WriteCaseRawBuf` | rs/dbf_dat.cpp:285-300 | the file changes as a save does; the cache is bypassed and stays right if and only if no copy of a changed record is left behind |
| `DbfStores.Table.UpdateCase` | rs/dbf_dat.cpp:302-355 | with a backup the record changes if and only if the stored bytes equal it; case 0 appends; past the end it changes only if what there is of the record agrees |
| `DbfStores.Table.StoredEquals` | rs/dbf_dat.cpp:339-355 | the comparison is with the bytes in the file, through the cache |
| `DbfStores.Table.SetDeleteFlag` | rs/dbf_dat.cpp:192-201 | a record that can be written starts with 0x2A after `db_Deleted`, 0x20 after `db_OK`, 0x21 after `db_Locked`, 0x7E after `db_Encrypted`, and is otherwise as it was; file and cache stay equal if and only if the write went through or changed nothing |
| `DbfStores.Table.GetDeleteFlag` | rs/dbf_dat.cpp:203-212 | the setting of the stored record, cached or not: deleted if and only if its first byte is 0x2A, OK if and only if it is 0x20 or 0, locked for 0x21, encrypted for 0x7E; and `db_OK` for a table that is not dBase |
| `DbfStores.Table.SetCacheSize` | rs/dbf_dat.cpp:55-58 | a resize changes no file byte and keeps the table sound |
| `DbfStores.Table.ReloadFile` | rs/dbf_dat.cpp:396-404 | clearing the cache changes no file byte and keeps the table sound |
| `DbfRuns.Replay` | rs/dbf_dat.cpp:192-404 | any run from any state of the cache, fields and records read through it included, gives the results and leaves the records of the same run on a plain sequence of records |
| `DbfRuns.Perform` | rs/dbf_dat.cpp:192-404 | the same for one operation |
| `DbfRuns.MarksInBytes` | rs/dbf.h:58-61 | the bytes of the four marks in a run on records, and what checking any first byte answers |
| `DbfRuns.AppendedIsNotDeleted` | rs/dbf_file.cpp:181-249 | an appended record that starts with a blank is not deleted, is deleted once marked so, and is as before once the mark is taken back |
| `DbfRuns.Compete` | rs/dbf_dat.cpp:302-355 | over any interleaving an attempt wins if and only if its backup is the record's current content |
| `DbfRuns.WinnersFormAChain` | rs/dbf_dat.cpp:302-355 | each winning update had the previous winner's content in hand |
| `DbfHeaders.Header.CalculateSizes` | rs/dbf_head.cpp:23-43 | fields are laid out one behind the other from offset 1 |
| `DbfHeaders.FieldsFollowTheMark` | rs/dbf_head.cpp:25-38 | the first field stands behind the mark, each next one behind the one before, and a virtual one takes no room |
| `DbfHeaders.FieldsDoNotOverlap` | rs/dbf_head.cpp:23-43 | the slices of two fields of a laid-out header are disjoint |
| `DbfHeaders.AddedIsFound` | rs/dbf_head.cpp:56-97 | an added field is the one its name finds afterwards; every other field stays as and where it was, and names stay distinct |
| `DbfHeaders.IndexOfNameFinds` | rs/dbf_head.cpp:91-97 | the lookup finds the first field of that name, ignoring case, or none |
| `DbfHeaders.FieldRoundTrip` | rs/dbf_head.cpp:190-342 | a printed field record parses back if and only if name and length fit |
| `DbfHeaders.FieldRecordInBytes` | rs/dbf_head.cpp:322-342 | where name, type and length of a printed field stand, and that the rest is zero |
| `DbfHeaders.ParsedFieldInBytes` | rs/dbf_head.cpp:189-213 | what any record of 32 bytes is parsed to: the length of two bytes for characters, of one otherwise, and the old length where that is zero |
| `DbfHeaders.Header.CreateFile` | rs/dbf_head.cpp:260-352 | the file written is the header image of the laid-out fields |
| `DbfHeaders.ImageInBytes` | rs/dbf_head.cpp:268-346 | type, date, sizes, field records and the end mark, byte by byte |
| `DbfHeaders.Header.LoadDBF` | rs/dbf_head.cpp:167-250 | the fields loaded are those of the records, by count (0 for declared sizes below 32) or up to the end mark or the end of the data, laid out one behind the other |
| `DbfHeaders.Header.LoadScanned` | rs/dbf_head.cpp:216-247 | the scan stops at the first end mark, or at the end of the data with a short record completed by the one before it, and measures the header |
| `DbfHeaders.Header.LoadCounted` | rs/dbf_head.cpp:173-214 | the counted form reads that many records or says why not |
| `DbfHeaders.CountForInBytes` | rs/dbf_head.cpp:176-178 | how many fields a declared header size stands for |
| `DbfHeaders.CreateThenLoad` | rs/dbf_head.cpp:167-352 | a created file loads back to the same fields, offsets, record length and header size, in both forms and before any records, if and only if every field is written whole (not virtual, name and length fit, no name starts with CR) and the header size, if one is set already, stands for that many fields |
| `DbfHeaders.CountedFormLoads` | rs/dbf_head.cpp:167-352 | with a declared size a header loads, before any records, if and only if it has no virtual field and no name that starts with CR |
| `DbfHeaders.ScannedFormLosesVirtualFields` | rs/dbf_head.cpp:216-352 | without one it loads with the virtual fields missing and a header size 32 bytes short for each of them |
| `DbfHeaders.VirtualFieldsAreNotWritten` | rs/dbf_head.cpp:322-346 | the image has one record of 32 bytes less for each virtual field |
| `DbfHeaders.OnlyWholeFieldsComeBack` | rs/dbf_head.cpp:167-352 | if reading any number of records of a created file gives the same fields back, all of them were written whole |
| `DbfRecords.Record.Backup` | rs/dbf_rec.cpp:208-217 | the backup is the record as it is, never one of a new record |
| `DbfRecords.Record.SetData` | rs/dbf_rec.cpp:267-300 | only the addressed field changes, padded or copied, and the first change keeps the old record as the backup |
| `DbfRecords.PaddedInBytes` | rs/dbf_rec.cpp:279-298 | a text that fits, up to its NUL or the given length, is stored as it is with blanks behind it |
| `DbfRecords.Record.CommitChanges` | rs/dbf_rec.cpp:332-355 | a commit with a backup is a compare-and-swap of the whole record; the backup is gone either way |
| `DbfRecords.CommitTwice` | rs/dbf_rec.cpp:351 | repeating a lost commit overwrites a record the client never saw |
| `XmlScans.ReadUntilChar` | rs/io_stream.cpp:170-179 | the text before the first delimiter or NUL goes out, and the stream stands behind it |
| `XmlScans.Eatwhite` | rs/io_xml.cpp:138-145 | the next character that is not white space, or the end of the file |
| `XmlTags.WriteTag` | rs/io_xml.cpp:27-52 | the tag with every named parameter, its value escaped and quoted |
| `XmlTags.StartTag` | rs/io_xml.cpp:83-136 | the name of the next tag, whether it was slashed, and where the stream stands |
| `XmlTags.FinishTag` | rs/io_xml.cpp:161-222 | the parameters, end mark, result and position for any stream |
| `XmlForms.BareIsRead` | rs/io_xml.cpp:180-219 | a value without quotes is stored whole, and reading goes on at the white space or the end mark behind it |
| `XmlForms.QuotedIsRead` | rs/io_xml.cpp:180-219 | a value in quotes or apostrophes goes up to the next one of the same kind, whatever else stands in it |
| `XmlForms.NameAloneIsRead` | rs/io_xml.cpp:204-219 | a name without an equals sign is stored with the empty value |
| `XmlForms.SlashEndsTheTag` | rs/io_xml.cpp:209-212 | a lone slash in front of the end mark is the end mark of the tag, not a parameter |
| `XmlForms.CutShort` | rs/io_xml.cpp:172-221 | a name in front of the end of the file is stored, and the result is false |
| `XmlForms.StartInBytes` | rs/io_xml.cpp:69-85 | the type between the next bracket and white space or a bracket, without the slash of a closed tag |
| `XmlForms.WrittenInBytes` | rs/io_xml.cpp:27-52 | a written tag, byte by byte |
| `XmlRoundTrips.ReadWhatWasWritten` | rs/io_xml.cpp:27-222 | type, parameters in order, end mark and position come back exactly as written if and only if all names are legible and the tag is not just a type ending in a slash |
| `XmlRoundTrips.FinishAll` | rs/io_xml.cpp:161-222 | reading any list of written attributes appends exactly the named ones, and ends well, if and only if all names are legible where they stand |
| `XmlRoundTrips.FinishOne` | rs/io_xml.cpp:169-220 | one written attribute is consumed and stored with its value |
| `Params.ParameterList.Set` | rs/sy_param.cpp:245-266 | overwrites the first parameter of that name, ignoring case, or appends one |
| `Params.PutFinds` | rs/sy_param.cpp:245-259 | the first name that is the same but for case keeps its spelling and gets the value; without one the parameter is appended with its equals signs as tildes |
| `Params.PutNew` | rs/sy_param.cpp:245-259 | an unused name without an equals sign is appended as it is |
| `HtmlText.HTMLEscape` | rs/io_print.cpp:56-79 | every special character goes out as its entity and nothing else changes |
| `HtmlText.EscapedIsSafe` | rs/io_print.cpp:56-79 | escaped text has no angle bracket, quote or NUL |
| `HtmlText.HTMLUnEscape` | rs/io_print.cpp:81-118 | the string becomes its unescaped form in place, whatever stands behind its NUL |
| `HtmlText.NamedEntity` | rs/io_print.cpp:89-97 | each of the four named entities, in any mixture of case, gives its character |
| `HtmlText.NumericEntity` | rs/io_print.cpp:99-111 | a decimal entity gives the UTF-8 form of its number |
| `HtmlText.Utf8IsRead` | rs/sy_string.cpp:441-470 | that form is read back by a decoder of one to four bytes |
| `HtmlText.LoneAmpersand` | rs/io_print.cpp:87-115 | an ampersand that starts no entity stays |
| `HtmlText.NumberWithoutSemicolon` | rs/io_print.cpp:99-115 | so does one in front of a number without a semicolon, or of a number whose low 32 bits are zero |
| `HtmlText.Turn` | rs/io_print.cpp:84-116 | one turn moves one piece down and never writes beyond what it has read |
| `HtmlText.UnescapeUndoesEscape` | rs/io_print.cpp:56-118 | unescaping an escaped text gives the text |
| `CText.CEscape` | rs/io_print.cpp:120-135 | every character goes out as its code |
| `CText.CUnEscape` | rs/io_print.cpp:137-160 | what is written for any memory closed by two NULs |
| `CText.CodesOfC` | rs/io_print.cpp:120-135 | the code of each character, byte by byte |
| `CText.MeaningsOfC` | rs/io_print.cpp:137-160 | what each code and each other character stands for |
| `CText.UnescapeUndoesEscape` | rs/io_print.cpp:120-160 | the text comes back if and only if none of its letters n, t, r is among the extra characters |
| `Base64.Output64Chunk` | rs/io_b64.cpp:8-26 | three bytes, some of them missing, as four symbols |
| `Base64.BasisIsTheAlphabet` | rs/io_b64.cpp:4-5 | the symbols are those of section 6.8 of RFC 2045, in their order |
| `Base64.QuadInBits` | rs/io_b64.cpp:8-26 | the four symbols are the digits to base 64 of the number the three bytes make |
| `Base64.B64Encode` | rs/io_b64.cpp:28-59 | the whole input is encoded and the number of bytes written returned |
| `Base64.EncodingIsWrapped` | rs/io_b64.cpp:36-57 | the encoding is its symbols with a line break behind every 72 of them and behind the rest |
| `Base64.EncodedLines` | rs/io_b64.cpp:28-59 | its exact length, and no line longer than 72 |
| `Base64.CleanEncoding` | rs/io_b64.cpp:8-59 | without line breaks it is the symbols of the input, and it never holds 0xFF |
| `Base64.QuadsLength` | rs/io_b64.cpp:8-59 | four symbols for every started three bytes |
| `Base64.B64GetNextCh` | rs/io_b64.cpp:94-103 | the next symbol or pad, skipping everything else; 0xFF reads as the end |
| `Base64.B64Decode` | rs/io_b64.cpp:133-197 | the bytes any stream stands for, group by group |
| `Base64.GroupInBits` | rs/io_b64.cpp:133-197 | any four symbols or pads give the bytes of the number the symbols make |
| `Base64.IncompleteGroupIsLost` | rs/io_b64.cpp:133-197 | fewer than four symbols at the end give nothing |
| `Base64.GroupOfQuad` | rs/io_b64.cpp:8-197 | the shifts and masks of both directions fit together |
| `Base64.DecodeUndoesEncode` | rs/io_b64.cpp:8-197 | decoding gives the input back, whatever bytes outside the alphabet, other than 0xFF, are put in or taken out |
| `MailLines.SendLn` | rs/io_inet.cpp:681-691 | the string without a final newline, then CRLF |
| `MailLines.ChoppedInBytes` | rs/io_inet.cpp:681-691 | one final newline is dropped, nothing else |
| `MailLines.RecvLn` | rs/io_inet.cpp:695-713 | the buffer, result and position after one line or one full buffer |
| `MailLines.SendLine` | rs/ml_pop.cpp:1073-1078 | a line goes out with its leading dot doubled in place |
| `MailLines.SendText` | rs/ml_pop.cpp:1065-1086 | every line of the text goes out stuffed, in order |
| `MailLines.LinesOfText` | rs/ml_pop.cpp:1065-1086 | a text of lines, each in front of any CRs and at most one LF, has exactly those lines, empty ones included |
| `MailLines.EveryTextIsPieces` | rs/ml_pop.cpp:1073-1083 | every text is such a text |
| `MailLines.BreakEnds` | rs/ml_pop.cpp:1082-1083 | a break is any CRs and at most one LF |
| `MailLines.LinesOfJoined` | rs/ml_pop.cpp:1073-1083 | a text of CRLF lines has exactly those lines |
| `MailLoad.Load` | rs/ml_pop.cpp:113-139 | sends the command and writes what the body stands for, leaving the rest unread |
| `MailLoad.LoadBody` | rs/ml_pop.cpp:119-138 | the loop, for any stream and buffer |
| `MailLoad.SendThenLoad` | rs/ml_pop.cpp:113-139 | a text given as lines and breaks, each break CRs and at most one LF, is sent as those lines and they come back if and only if no continuation piece of 255 bytes is a dot or starts with two; the stream then stands behind the end mark |
| `MailLoad.SentInBytes` | rs/ml_pop.cpp:1073-1086 | the bytes sent for each line |
| `MailLoad.ReceivedLine` | rs/io_inet.cpp:695-713 | what a line in front of LF, of CR and one more byte, or of the end leaves in the buffer and in the stream |
| `MailLoad.CanonicalTextSurvives` | rs/ml_pop.cpp:1065-1086 | text in CRLF form with stuffed lines of at most 255 bytes comes back unchanged |
| `MimeLines.ReadLine` | rs/io_stream.cpp:220-239 | at most 8192 bytes up to the newline, cut at the first CR |
| `MimeLines.AnyLine` | rs/io_stream.cpp:220-239 | any stream: how much is taken, and that the line is it up to the first CR or NUL |
| `MimeLines.JoinedLinesAreRead` | rs/ml_mime.cpp:103-156 | rewritten lines are read as they were if and only if each has at most 8190 bytes |
| `MimeHeaders.ReadMIME` | rs/io_list.cpp:113-144 | the parameters of the header, continuation lines included, and where the body starts |
| `MimeHeaders.HeaderIsRead` | rs/io_list.cpp:113-144 | a written header is read back and its body left |
| `MimeHeaders.FoldedHeader` | rs/io_list.cpp:125-133 | a line that starts with blanks continues the value before it, behind the last of these blanks |
| `MimeHeaders.SplitInBytes` | rs/io_list.cpp:134-141 | a name goes up to the first colon and the value starts behind the blanks that follow |
| `MimeHeaders.NameWithoutValue` | rs/io_list.cpp:134-141 | a line without a colon stores nothing and is the name a continuation belongs to |
| `MimeHeaders.NamedLinesOfWritten` | rs/io_list.cpp:113-144 | the result counts the lines that name a parameter |
| `MimeSplits.PartsAreTheSections` | rs/ml_mime.cpp:103-164 | the parts are exactly the stretches between boundary lines, in order, up to the end line |
| `MimeSplits.EveryBodyIsComposed` | rs/ml_mime.cpp:103-164 | every body is a preamble, such stretches, and an epilogue or nothing |
| `MimeSplits.PartsAreLighter` | rs/ml_mime.cpp:120-140 | every part holds less text than the body, whatever the line lengths, so that the recursion ends |
| `MimeParses.ParseMIMEMessage` | rs/ml_mime.cpp:69-168 | the tree of the message; a part that is multipart without a boundary is dropped, an unclosed one kept as it is |
| `MimeParses.SplitParts` | rs/ml_mime.cpp:102-164 | the line loop adds the mails of the parts of the rest of the body |
| `MimeParses.ClosePart` | rs/ml_mime.cpp:22-31 | a collected part is parsed as header and body and then as a message |
| `MimeParses.QuotedBoundary` | rs/ml_mime.cpp:83-94 | a quoted boundary, however the word boundary is spelt, is taken whole if and only if it has no semicolon, blank or tab |
| `MimeParses.PlainBoundary` | rs/ml_mime.cpp:87-98 | an unquoted boundary goes up to a semicolon, blank, tab or the end |
| `MimeParses.UnclosedBoundary` | rs/ml_mime.cpp:87-98 | so does one behind a quote that is never closed |
| `MimeParses.FromIsEarliest` | rs/ml_mime.cpp:84-87 | the search finds the earliest place where the word stands, ignoring case, if there is one |
| `MimeParses.TypeGivesBoundary` | rs/ml_mime.cpp:84-98 | a content type `multipart/...; boundary=` in any proper form is compound and gives its boundary |
| `MimeRoundTrips.ParseUndoesCompose` | rs/ml_mime.cpp:22-168 | parsing a message composed from given boundaries, quoted or not, behind a literal content type gives its tree back, however deeply nested |
| `MimeRoundTrips.BoundaryLinesInBytes` | rs/ml_mime.cpp:103-164 | two dashes and the boundary start a part, with two more dashes they end the message, ignoring case |
| `MimeRoundTrips.MissingBoundaryIsDropped` | rs/ml_mime.cpp:84-102 | a compound message that nowhere names a boundary is dropped |
| `MimeRoundTrips.UnclosedPartIsKept` | rs/ml_mime.cpp:102-168 | a part that nothing closes is kept as an atom with the text read so far |
| `MultTexts.CodesOfConcat` | rs/sy_form.cpp:127-135 | splitting a text behind a comma splits its codes |
| `MultTexts.CodesAfterAdding` | rs/sy_form.cpp:52-58 | the code is appended if and only if it fits, else no code changes |
| `MultTexts.CodesAfterClearing` | rs/sy_form.cpp:64-83 | one occurrence of the code goes and nothing else |
| `MultTexts.StuckClear` | rs/sy_form.cpp:71-81 | in a full field followed by a comma the last code stays, every other is cleared |
| `MultResps.StrMatch` | rs/sy_form.cpp:25-37 | whether the code stands there and ends there |
| `MultResps.HasMultResp` | rs/sy_form.cpp:118-140 | whether the search through the tokens finds the code, looking behind the field as the code does |
| `MultResps.HasMultRespSized` | rs/sy_form.cpp:86-116 | whether the code is among those of the field, in any memory |
| `MultResps.HasIsRightWhenTerminated` | rs/sy_form.cpp:118-140 | it is right for every code if and only if the end of the field is safe |
| `MultResps.SetMultResp` | rs/sy_form.cpp:48-59 | the field's text after adding; its length and all other memory stay |
| `MultResps.ClearMultResp` | rs/sy_form.cpp:61-84 | the field's text after clearing; its length and all other memory stay |
| `MultResps.ToggleMultResp` | rs/sy_form.cpp:39-46 | clears a code that is there, adds one that is not |
| `MultRuns.StepRefinesSet` | rs/sy_form.cpp:39-84 | in any memory each edit does to the set of codes what it says, adding if and only if there is room, unless it should take away the last code of a full field and that code resists: Clear in front of a comma, Toggle also behind other codes in front of more text |
| `MultRuns.Replay` | rs/sy_form.cpp:39-84 | any run from a blank field, in any memory, leaves the text its edits stand for there, changes that field only and keeps its length |
| `MultRuns.TwoCodesInBytes` | rs/sy_form.cpp:48-59 | two codes set in turn stand in the field with a comma between them and blanks behind |
| `MultRuns.HasAfterReplay` | rs/sy_form.cpp:39-140 | Has behind any run, in any memory; it is true exactly of the members of the abstract set where the byte behind the field is safe |
| `MultRuns.RunsAreRightIfSafe` | rs/sy_form.cpp:39-140 | Has is right behind every run if and only if the byte behind the field is a NUL or a blank, or the field has at most two bytes and the byte is not a comma |
| `MultRuns.CommaBehind` | rs/sy_form.cpp:61-84 | with a comma behind the field its only code cannot be cleared from a full field |
| `MultRuns.TextBehind` | rs/sy_form.cpp:118-140 | with text behind the field the second of two codes that fill it is not found |
| `MultRuns.ToggleTwice` | rs/sy_form.cpp:39-84 | in any memory toggling a code of the field twice restores the set if and only if the field is not full, the code does not end it or is all of it, or the byte behind the field is neither a NUL nor a blank |
| `Adler.Crc32` | rs/sy_crc.cpp:21-46 | the chunked, unrolled sum equals the byte-wise checksum for any start value; every intermediate fits 32 bits; a null buffer gives 1 |
| `Adler.KnownChecksums` | rs/sy_crc.cpp:21-46 | the checksums of nothing, of one letter, and at the modulus |
| `Adler.SumChunk` | rs/sy_crc.cpp:31-42 | a chunk adds both sums without any modulo |
| `Adler.DeferredModulo` | rs/sy_crc.cpp:31-42 | one modulo at the end equals a modulo after every byte |
| `Adler.ChunkFits` | rs/sy_crc.cpp:10-12 | no sum of a chunk overflows 32 bits, even from 0xffffffff |
| `Adler.NmaxIsTheLargestChunk` | rs/sy_crc.cpp:10-12 | chunks of n bytes are safe if and only if n is at most 5552 |
| `Adler.Composes` | rs/sy_crc.cpp:21-46 | checksumming two pieces in turn is checksumming the whole |
| `Adler.OneWrongByteIsDetected` | rs/sy_crc.cpp:21-46 | changing any one byte changes the checksum |
| `Adler.SwappedNeighboursAreDetected` | rs/sy_crc.cpp:21-46 | exchanging two different neighbours changes the checksum |
| `ZipFind.FindDirectory` | rs/io_zip.cpp:17-53 | the overlapping windows find the last mark of the farthest 65535 bytes that is not at offset 0, or say 0 |
| `ZipFind.ScanWindow` | rs/io_zip.cpp:42-48 | the highest mark of one window, given that none starts later |
| `ZipFind.EndRecordIsFound` | rs/io_zip.cpp:17-53 | an archive's end record is found if and only if something stands before it, its comment has at most 65513 bytes, and no mark comes after it |
| `ZipFind.EndRecordIsMissed` | rs/io_zip.cpp:17-53 | otherwise a later mark within reach is taken for it, and without one the archive is taken to have none |
| `ZipFind.EmptyArchiveIsMissed` | rs/io_zip.cpp:28-52 | the 22 bytes of an archive without entries are taken to have no end record |
| `ZipFind.MarkInTheCommentIsFound` | rs/io_zip.cpp:42-48 | a comment that is the mark again is taken for the record |
| `Envelopes.Memory.Construct` | rs/pointer.h:54-55 | a new letter held by the new handle alone, which may be a part of an object |
| `Envelopes.Memory.Copy` | rs/pointer.h:57-59 | the copy shares the letter |
| `Envelopes.Memory.Destroy` | rs/pointer.h:61-62 | the letter and object go with the last handle, and with the object the handles that are parts of it, of which the handle itself must not be one |
| `Envelopes.Memory.Assign` | rs/pointer.h:100-107 | shares the source's letter; touches freed memory if and only if this handle is the sole holder and is the source, or one of the two lives in an object that hangs on this handle, which the state before the call tells |
| `Envelopes.Memory.AssignObject` | rs/pointer.h:109-115 | the handle gets a letter of its own for the object, unless it is the sole holder of its letter and lives in an object that hangs on it |
| `Envelopes.Memory.Release` | rs/pointer.h:87-93 | the count goes down; at zero the object is deleted and its own handles release theirs in turn; the owner is told at one, as `Envelopes.ToldWhenOneIsLeft` and `Envelopes.NotifiedOverRuns` spell out |
| `Envelopes.ToldWhenOneIsLeft` | rs/pointer.h:87-93 | when a handle that is not the sole holder of its letter lets go, the object of the letter is told if and only if the letter has an owner and exactly one other live handle holds it, and nothing else is |
| `Envelopes.DropTells` | rs/pointer.h:87-93 | a release with all it drags along tells an object once for each letter of it with an owner that went from two or more holders to one or none |
| `Envelopes.NotifiedOverRuns` | rs/pointer.h:51-115 | over any program an object is told as often as steps of it take a letter with an owner from two or more holders to one or none |
| `Envelopes.LettersOverRuns` | rs/pointer.h:51-115 | the letters of a program are those its constructions and assignments of objects made, an owner named at construction only |
| `Envelopes.StepHolds` | rs/pointer.h:51-115 | who holds what behind each step, told from the state before it |
| `Envelopes.MembersBackwards` | rs/pointer.h:87-97 | the handles inside an object go in the order opposite to that in which they were made |
| `Envelopes.Memory.IsMine` | rs/pointer.h:73 | true if and only if no other live handle shares the letter |
| `Envelopes.Perform` | rs/pointer.h:51-115 | over any legal program without such an operation every count equals the number of live holders, no live handle lives in a deleted object, and nothing freed is touched |
| `Envelopes.DeletedExactlyOnce` | rs/pointer.h:51-115 | after such a program an object has been deleted once if no live handle reaches it and not at all otherwise |
| `Envelopes.WhatGoesIsLeast` | rs/pointer.h:51-97 | the objects that hang on a handle are the least set with every object all of whose holders are that handle or live in the set |
| `Envelopes.LostIsWhatGoes` | rs/pointer.h:87-93 | when a handle lets go, the cascade deletes exactly the objects that hang on it |
| `Envelopes.GoesIfHomeGoes` | rs/pointer.h:87-107 | a release takes another live handle with it if and only if that handle lives in an object that hangs on the one released |
| `Envelopes.NothingGoesUnlessSole` | rs/pointer.h:87-93 | nothing is deleted, and no other handle goes, unless a sole holder lets go |
| `Envelopes.LinkOfTheNodeIsLost` | rs/pointer.h:100-107 | assigning to the only handle on a node a handle that the node holds reads that handle after it is gone |
| `Envelopes.LostLinkIsReached` | rs/pointer.h:54-107 | a program of two constructions reaches such a state |
| `Envelopes.SelfAssignmentDeletesAHeldObject` | rs/pointer.h:100-107 | assigning a sole holder to itself deletes an object that is still held |

## Left out

- Integer widths: `int` and `long` counters and offsets are unbounded, except where a width matters and is written out (Adler-32, the ZIP file size, header fields, header bytes of the image).
- Output streams never fail in the model; the results of `write` and `sendln` failures are not modelled.
- Uninitialised memory is an arbitrary value; running past the end of a buffer is modelled where it matters (`HasMultResp`, `HTMLUnEscape`) and otherwise excluded by a closing NUL.
- One function of the source is often several methods here; the helpers have no row of their own.
- GIF: `Line`, `Arc`, `PieSlice`, fonts and colour allocation, which draw but do not encode. Sizes above 65535 do not fit the header's two bytes, and nothing is claimed about reading such a file.
- `GifImages.GifImage.WriteRLE`: an image without pixels, where the source's loop runs past its end test and never stops.
- `GifImages.GifImage.Fill`: a call that never returns has no result; which calls those are is `FloodFill.ZeroFillReturns`.
- DBF: encryption, passwords, memo files and blobs, quest types and sequence numbers, chevron fields, the case count `unsigned long` wrap-around, and the table's `ReadCaseRange` and `SaveCaseRange`, which go past the cache to `ReadData` and `SaveData`.
- DBF: several processes on one file; one table object owns its file between calls, and `Compete` interleaves whole calls.
- `DbfRuns.Replay`: a dBase table opened for everything on a file that can be read and written; operations on records that do not exist are not part of a run.
- `DbfStores.Table.UpdateCase`: past the last record the source compares the backup with a buffer that is only partly read; whether the uninitialised rest agrees is left open.
- `DbfHeaders.Header.LoadDBF`: a scanned header whose very first record is short, where the source parses uninitialised bytes.
- `DbfHeaders.CreateThenLoad`: the memo address is not written by the source and does not come back; names hold no NUL, are distinct and field lengths have 16 bits, as `AddField` makes them.
- XML: `ReadUntilTag`, `PutBackTag`, `SkipTag` and the list of allowed tags; `StartTag` is modelled with every tag allowed.
- XML: the binary-search index that `TParameterList` builds beyond 128 entries is modelled as the linear search it stands in for.
- `HtmlText.HTMLUnEscape`: the memory ends in two NULs, as `AllocStr` (rs/sy_alloc.cpp:14) provides; numeric entities follow `strtoul` with 64-bit `unsigned long`; the UTF-16 `HTMLEscape` is not modelled.
- Base64: quoted-printable decoding; a stream that holds 0xFF decodes as the code does, but no round trip is claimed for it.
- Mail: the callback of `SendText`, log-in, and a connection that breaks in the middle of a line, where `Load` prints what an earlier line left in its buffer up to the buffer's end.
- `MailLoad.Load`: the contract speaks of the buffer the source leaves uninitialised through a ghost result.
- MIME: decoding of atom bodies and file names; `TPointer` and `TRow` ownership of the parts, which are values here.
- `MimeRoundTrips.ParseUndoesCompose`: header parameters stand on one line each, and the lines of a compound body have at most 8190 bytes and no NUL. The composed content type names nothing with an equals sign before its boundary; for any other text `MimeParses.FromIsEarliest` and the three lemmas on boundaries say what is found.
- Multiple responses: the `loc` result of `HasMultResp`, `HasToken`, and codes that are empty or hold commas, blanks or NULs.
- ZIP: reading the directory itself and everything that needs zlib.
- `Envelopes.Memory.Release`: a destructor does nothing but destroy the handles that live in its object, the last one first, and handles do not move from one object to another.
- `Envelopes.Memory.Construct`: handing one raw pointer to two envelopes, and what an owner's `NotifyRelease` does, are the program's business.
- The rest of the repository: the JavaScript wrappers and scripts, sockets and pipes, the ODBC and mail back ends, matrices, sorting and searching templates.
