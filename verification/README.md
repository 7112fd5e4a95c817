# Verification models of FreeDOS utilities

Dafny models of eight pieces of the FreeDOS utilities, with proofs of what each of them is for. The device calls
around them (INT 13h, INT 25h and 26h, absread, abswrite, the console) are replaced by sequences of sectors, arrays
of bytes and function parameters. `dafny verify dfyconfig.toml` checks everything.

| module | what it models |
|---|---|
| `Bytes`, `Commons` | machine bytes and words; an optional value and laws of arithmetic |
| `Rfc1321`, `Md5` | RFC 1321 by its index formulas, and the streaming digest of `diskcomp/md5.c` proved against it |
| `DiskComp` | the DMA buffer search and the two disk digests of `diskcomp/drive.c` |
| `MemWords`, `DynStr`, `DynArray`, `EdLib` | edlin: word-at-a-time memory functions, the growable string and array, and the editor's commands on lines |
| `Fat`, `BcRead`, `RecordBc`, `RecordBc32`, `SurfaceScan`, `BadClusterLaws` | FORMAT's bad clusters: reading old FATs, recording lists in new ones, the surface scan, and the laws that connect them |
| `Floppy` | interleave and skew of a track |
| `AsmTable`, `AsmLines`, `AsmWriter`, `AsmOrder` | the assembler-table compiler of DEBUG: byte encoding and decoding, and the order check |
| `FastCopy`, `TwoDriveCopy` | the fast disk copy that skips free blocks |
| `Numbers` | number output and input of the EMM386 and HIMEM programs |

An object whose methods update its fields is a class whose methods are proved against sequence functions; the laws
are lemmas about these functions. A failing exit of a program is a result value of the model.

## What the proofs showed

- `format/recordbc.c:110-114` asks whether its translation of sectors to clusters is correct. It rounds up: any
  sector but the first of a cluster is attributed to the next cluster (`Fat.RoundsUp`,
  `BadClusterLaws.AttributedTo`). The lists of `format/bcread.c` hold first sectors only and are not affected; those
  of the surface scan are, with more than one sector per cluster.
- The outer loop of `Record_Bad_Clusters_FAT16` compares a sector number with the size of the FAT, so each reserved
  sector after the first costs the last sector of the FAT (`RecordBc.CoveredIff`); on a volume with two a listed
  cluster stays unmarked (`RecordBc.SecondReservedSectorCosts`). The initial entries 0 and 1 are written for sector 1
  of the disk only, so with more than one reserved sector a listed cluster below 256 has them cleared
  (`RecordBc.HeaderIff`, `RecordBc.HeaderLost`).
- A disassembler-only variant with a machine digit leaves a machine byte in the assembler table that is read as part
  of the next variant (`AsmTable.RoundTrip`, `AsmTable.StrayExample`).
- The size announced by `GetDiskFilledSize` is too small when a free block begins exactly with the data area,
  because the copy always reads that block (`FastCopy.SizeIsExact`; `FastCopy.SizeIsShort` has such a diskette).
- The fast copy goes by a start of data that is worked out once and kept for all later pairs of diskettes, and by the
  boot record of the target, which is read last; only capacity and cluster size of the two diskettes are compared.
  When the source has its data elsewhere, sectors are taken for other clusters than their own, and when it has its FAT
  elsewhere, the wrong bytes are looked up, so an allocated cluster can be left out: in a 720K pair after a 1440K pair
  (`TwoDriveCopy.SecondPairLoses`), with a target whose FATs are larger (`TwoDriveCopy.LargerFatLoses`), or with a
  target that has one more reserved sector (`TwoDriveCopy.FatElsewhereLoses`). Nothing is left out, whatever the
  source holds, if and only if every block passes a test on the two boot records and the start
  (`TwoDriveCopy.CompleteIffSafe`, `FastCopy.Safe`).
- The end of the two-drive copy is cut down to a multiple of the cluster size counted from sector 0, not from the
  start of data. The loop copies whole blocks of 32 sectors, which mostly makes up for it; when it does not, the last
  cluster is cut (`TwoDriveCopy.LoopCoversData`, `TwoDriveCopy.LastSectorLost`). On volumes of whole blocks whose
  clusters divide a block it cannot happen (`TwoDriveCopy.WholeBlocksCover`).
- `copy_block` is documented with a repeat count, which the code ignores; the model copies once, as the code does.
- The comment at `diskcomp/drive.c:171` is exact: below half of the pool a buffer is always found, above it there is
  an address for which it is not (`DiskComp.LessThanHalfPool`).

## Assumptions

- MD5 uses a 32-bit int, as `diskcomp/md5.h` asks for; `offset + nbytes` does not overflow it.
- In edlin every allocation succeeds, `UNALIGNED` is either constant, and words are 32 bits wide and read in whole;
  the string a part is inserted or replaced from is another object. Lines are held by value in the array of lines.
- The edit commands are given `line1 <= line2` and `line2` inside the buffer, which their callers see to.
- Sector and cluster numbers are unbounded where the C code uses 32 bits; sectors have 512 bytes. What a FAT12 buffer
  holds beyond a short FAT takes part in the scan, so the round trip asks for zeros there.
- The list of bad sectors handed to the recording begins in the data area or is reported as broken; the FAT16
  recording asks for it in nondecreasing order, which both makers of lists provide.
- Reads of the assembler table behind its last byte give zero.
- The two diskettes of a pair have the same capacity, which the program asks for until it gets it, and can be read
  and written up to the end of the last 16K block of the copy; in a fast copy the FAT that is read has an entry for
  every cluster that is asked for.
- The surface scan is given for each transfer whether it fails and for each sector what it reads back; both may be
  anything.

## Model

| member | source | states |
|---|---|---|
| `Rfc1321.WordOrderIsStride` | diskcomp/md5.c:213-315 | the word indices of the four rounds are the strides 1, 5, 3 and 7 modulo 16 of RFC 1321, section 3.4 |
| `Rfc1321.PaddingIsLeast` | diskcomp/md5.c:390-391 | the padding ends 8 bytes before a block boundary, and no shorter one does (RFC 1321, section 3.1) |
| `Rfc1321.AbsorbPrefix` | diskcomp/md5.c:366-368 | blocks already taken in are not affected by what is appended |
| `Md5.Round1` | diskcomp/md5.c:213-236 | the sixteen written-out SET lines are round 1 of RFC 1321, given there by index formulas |
| `Md5.Round2` | diskcomp/md5.c:239-262 | the sixteen written-out SET lines are round 2 of RFC 1321, given there by index formulas |
| `Md5.Round3` | diskcomp/md5.c:265-288 | the sixteen written-out SET lines are round 3 of RFC 1321, given there by index formulas |
| `Md5.Round4` | diskcomp/md5.c:291-314 | the sixteen written-out SET lines are round 4 of RFC 1321, given there by index formulas |
| `Md5.ProcessBlock` | diskcomp/md5.c:168-324 | md5_process is the compression of one 64-byte block of RFC 1321, section 3.4 |
| `Md5.CountIsOffset` | diskcomp/md5.c:341 | the low half of the bit counter alone gives the offset in the block and the padding length, also after it has wrapped |
| `Md5.CountCarries` | diskcomp/md5.c:348-352 | adding to the two 32-bit halves with the carry test adds to the 64-bit count modulo 2^64 |
| `Md5.Md5State.Append` | diskcomp/md5.c:336-373 | the buffered rest, the registers and the counter stay those of the message, which grows by the given bytes; a length of zero or less changes nothing |
| `Md5.Md5State.TakePartial` | diskcomp/md5.c:354-364 | the partial block is filled up; either it takes everything or one block goes through the compression |
| `Md5.Md5State.TakeBlocks` | diskcomp/md5.c:366-372 | whole blocks are compressed and the rest is kept in the buffer |
| `Md5.PaddedIs` | diskcomp/md5.c:378-394 | the bytes md5_finish appends are the padding and the length field of RFC 1321, sections 3.1 and 3.2 |
| `Md5.Md5State.Finish` | diskcomp/md5.c:375-397 | the digest is that of RFC 1321 for the whole message |
| `Md5.DigestOfChunks` | diskcomp/md5.c:326-397 | for every message and every way to cut it into appends the digest is that of the concatenation |
| `Md5.Md5OfChunks` | diskcomp/md5.c:326-397 | the same with 32-bit words and the compression of RFC 1321 put in |
| `DiskComp.CrossingIsAtBoundary` | diskcomp/drive.c:54-62 | for the sizes in question a buffer crosses a 64K boundary exactly when it reaches into the one next boundary of the pool |
| `DiskComp.DmaBuffer.Ensure` | diskcomp/drive.c:28-87 | the range found is the first admissible one from the old offset on, inside the pool and clear of 64K boundaries; the program gives up only when there is none; a buffer known to be large enough is kept |
| `DiskComp.LessThanHalfPool` | diskcomp/drive.c:168-173 | a request is met for every address of the pool exactly when it is at most 31 of the 63 sectors: the remark in the source is tight |
| `DiskComp.ServeAll` | diskcomp/drive.c:28-87 | no sequence of nonzero requests of at most 31 sectors makes the search give up |
| `DiskComp.BiosChecksum` | diskcomp/drive.c:331-396 | reading track by track and head by head digests the disk in order |
| `DiskComp.DosChecksum` | diskcomp/drive.c:400-461 | reading 32 sectors at a time with a clipped last turn digests all sectors in order |
| `MemWords.DetectNullIsExact` | edlin/dynstr.c:81-84 | DETECTNULL on 32 bits is nonzero exactly when a byte of the word is zero |
| `MemWords.DetectNull64IsExact` | edlin/dynstr.c:83-84 | the same on 64 bits |
| `MemWords.MaskFinds` | edlin/dynstr.c:116-130 | after the exclusive or with the mask the test finds exactly the words that hold the character |
| `MemWords.MemChr` | edlin/dynstr.c:95-148 | the word loop and the byte loop together find the first occurrence among the n bytes, or report that there is none |
| `MemWords.MemMove` | edlin/dynstr.c:183-237 | the destination holds the old source bytes and nothing else changes, for every length and overlap |
| `MemWords.MoveBackward` | edlin/dynstr.c:193-201 | the backward byte loop moves an overlapping range upwards intact |
| `MemWords.MoveForward` | edlin/dynstr.c:203-236 | the four-word, one-word and byte loops move a range downwards intact |
| `MemWords.MemSet` | edlin/dynstr.c:267-314 | exactly the n bytes are set |
| `MemWords.StrChr` | edlin/edlib.c:109-136 | the word-at-a-time search stops at the first character or at the NUL |
| `DynStr.DString.Grow` | edlin/dynstr.c:342-371 | room for n characters; the old characters survive unless the string is trimmed, and the buffer stays when it is large enough |
| `DynStr.DString.AppendChar` | edlin/dynstr.c:472-486 | appends n copies, or gives up when the length would reach NPOS |
| `DynStr.DString.Append` | edlin/dynstr.c:508-530 | appends the part of the other string, also of itself, or gives up on a bad position or length |
| `DynStr.DString.AssignChar` | edlin/dynstr.c:532-545 | the contents become n copies of the character |
| `DynStr.DString.Assign` | edlin/dynstr.c:569-590 | the contents become the part of the other string; cutting a string down to a part of itself works too |
| `DynStr.DString.Insert` | edlin/dynstr.c:637-656 | the part is inserted at the position; everything around it stays |
| `DynStr.DString.Remove` | edlin/dynstr.c:658-676 | the characters are cut out, as many as there are |
| `DynStr.DString.Replace` | edlin/dynstr.c:734-758 | the characters give way to the part, whether it is shorter, longer or of the same length |
| `DynStr.DString.Resize` | edlin/dynstr.c:987-996 | cut down to n characters or filled up to n |
| `DynStr.DString.Find` | edlin/dynstr.c:801-817 | the first match at or after the start, or that there is none |
| `DynStr.DString.RFind` | edlin/dynstr.c:819-838 | the last match at or before the start, or that there is none |
| `DynStr.NoFirstCharacter` | edlin/dynstr.c:810-812 | where the first character does not occur the pattern does not start, so the jumps of the search skip no match |
| `DynStr.MemCmp` | edlin/dynstr.c:969 | zero exactly for equal bytes, negative exactly for the smaller in lexicographic order of unsigned characters |
| `DynStr.Compare` | edlin/dynstr.c:957-971 | the sign tells the lexicographic order of the two strings |
| `DynStr.PerformAll` | edlin/dynstr.c:342-758 | over any run of admissible calls on two strings the representation invariant holds and the contents are those of the sequence operations |
| `DynArray.Array.Grow` | edlin/dynarray.h:172-208 | the length becomes n, the old elements survive as far as they fit, also when the array is reallocated |
| `DynArray.Array.Append` | edlin/dynarray.h:317-331 | appends n elements, each from the source or all from the same one |
| `DynArray.Array.Assign` | edlin/dynarray.h:333-344 | the contents become the n elements |
| `DynArray.Array.Insert` | edlin/dynarray.h:346-370 | the n elements stand at the position and the tail behind them |
| `DynArray.Array.Remove` | edlin/dynarray.h:372-390 | the elements are cut out, as many as there are |
| `DynArray.Array.Subarray` | edlin/dynarray.h:392-404 | the other array, or the array itself, becomes the part |
| `DynArray.Array.PutAt` | edlin/dynarray.h:433-443 | replaces an element, or appends one at the end |
| `DynArray.ShiftUp` | edlin/dynarray.h:360-365 | the loop from the top moves the tail up intact |
| `DynArray.ShiftDown` | edlin/dynarray.h:384-386 | the loop from the bottom moves the tail down intact |
| `EdLib.CutAndPasteIsPermutation` | edlin/edlib.c:322-348 | moving a block loses and duplicates no line |
| `EdLib.CutAndPastePlaces` | edlin/edlib.c:322-348 | the block stays whole, stands right before what was line3, and the other lines keep their order |
| `EdLib.InsertThenRemove` | edlin/edlib.c:336-340 | the insert-first order is cut and paste |
| `EdLib.RemoveThenInsert` | edlin/edlib.c:341-345 | the remove-first order is cut and paste |
| `EdLib.MoveBlock` | edlin/edlib.c:322-348 | the buffer is the block cut out and put back before line3, or unchanged with an entry error |
| `EdLib.CopyBlock` | edlin/edlib.c:287-304 | the block is inserted once before line3, or the buffer is unchanged with an entry error |
| `EdLib.DeleteBlock` | edlin/edlib.c:306-320 | the clipped range is cut out |
| `EdLib.FirstMatches` | edlin/dynstr.c:801-817 | the place found is a match and no earlier one is |
| `EdLib.FirstInSuffix` | edlin/edlib.c:643-645 | searching from a position is searching the rest of the line |
| `EdLib.ReplaceAllRejoins` | edlin/edlib.c:640-663 | a line is its pieces joined by the pattern, and the result the same pieces joined by the replacement |
| `EdLib.PiecesAreClear` | edlin/edlib.c:643-662 | the occurrences taken are leftmost and do not overlap, and none is left over, also when the replacement contains the pattern |
| `EdLib.WithoutQuestions` | edlin/edlib.c:651-656 | with every match accepted the substitution is the leftmost non-overlapping replace-all |
| `EdLib.SubstitutedGrows` | edlin/edlib.c:647-649 | a replacement at least as long as the pattern never makes the line shorter, so a failed replacement is foreseeable |
| `EdLib.TurnTaken` | edlin/edlib.c:653-658 | after an accepted match the search goes on right behind the replacement |
| `EdLib.TurnRefused` | edlin/edlib.c:659-660 | after a declined match the search goes on one character further |
| `EdLib.OneTurn` | edlin/edlib.c:643-662 | one turn of the inner loop keeps what the line is to become |
| `EdLib.ReplaceLine` | edlin/edlib.c:642-662 | the inner loop ends and turns the line into its substitution for the answers given; only a line over the length limit aborts |
| `EdLib.OthersUntouched` | edlin/edlib.c:640-663 | no line outside the range changes |
| `EdLib.RangeReplaced` | edlin/edlib.c:640-663 | with verification off every line in range becomes its replace-all |
| `EdLib.ReplaceRange` | edlin/edlib.c:640-666 | all lines in range, the matches offered in order, and the last changed line as the new current line |
| `EdLib.ReplaceBuffer` | edlin/edlib.c:605-667 | nothing happens for an empty pattern or a replacement equal to it; otherwise the range is replaced |
| `EdLib.SearchBuffer` | edlin/edlib.c:563-603 | for any answers: the line after the one accepted becomes the current line, where the accepted line holds the pattern and every earlier line that does was declined at its turn; otherwise every such line in range was declined and the current line stays |
| `EdLib.AcceptedIsUnique` | edlin/edlib.c:585-600 | at most one line of a range can be the accepted one, and then not all were declined |
| `EdLib.AcceptedIsFirst` | edlin/edlib.c:585-600 | when every match is accepted this is the first line that holds the pattern, and there is one exactly when any line does |
| `Fat.StartsAgree` | format/recordbc.c:64-69 | reader and writer of the list agree on the first data sector exactly for a root directory of whole sectors |
| `Fat.RoundsUp` | format/recordbc.c:109-114 | a sector is attributed to its cluster exactly when it is the first of it, and to the next cluster otherwise |
| `Fat.RoundingMissesCluster` | format/recordbc.c:110-114 | an input for which the wrong cluster is marked |
| `Fat.ClusterOfSector` | format/bcread.c:272-283 | the sector listed for a cluster is translated back to that cluster |
| `Fat.ClusterOfMonotone` | format/recordbc.c:234-238 | translation keeps the order of the list |
| `Fat.BadList.Push` | format/bcread.c:23-31 | a full list gives up its last element to the new one |
| `Fat.BadList.Note` | format/uformat.c:221-229 | the same list rule with the place that goes back instead of the check before |
| `BcRead.ListIs` | format/bcread.c:202-210 | the list holds the first sectors of the bad clusters in ascending order, the first 1023 and the latest when there are more than 1024 |
| `BcRead.BadClustersAre` | format/bcread.c:194-210 | the bad clusters listed are exactly those with a bad entry, each once |
| `BcRead.CountsAre` | format/bcread.c:114-132 | the used, bad and item counts are exact |
| `BcRead.LastIs` | format/bcread.c:286-293 | the last used cluster is the highest one in use, 2 when there is none |
| `BcRead.ScanIsSorted` | format/bcread.c:202-210 | a list that was empty comes out in nondecreasing order |
| `BcRead.BadClustPreserve12` | format/bcread.c:225-302 | pairs of packed entries are counted as one entry after the other; the value returned is the end of the highest used cluster; a FAT over 21 sectors is refused |
| `BcRead.Pair` | format/bcread.c:258-293 | the branches on a pair count both entries and list both bad ones in order |
| `BcRead.BadClustPreserve16` | format/bcread.c:154-221 | reading in chunks of 21 sectors, then sector by sector, equals one pass over all entries |
| `BcRead.BadClustPreserve32` | format/bcread.c:60-150 | the same on 32 bits with the four high bits ignored |
| `BcRead.ReadEntry16` | format/bcread.c:177-193 | word i of a chunk is entry j + i of the FAT |
| `BcRead.ReadEntry32` | format/bcread.c:86-115 | the same on 32 bits |
| `RecordBc.PackedEntries` | format/recordbc.c:122-146 | a packed write marks its own entry and disturbs no other, in particular not the one that shares a byte |
| `RecordBc.Table12Marks` | format/recordbc.c:92-149 | the finished table marks exactly the listed clusters; all others are free |
| `RecordBc.Table12Starts` | format/recordbc.c:96-99 | the first three bytes are those of an empty FAT |
| `RecordBc.ChangesAreDistinct` | format/recordbc.c:116-120 | on a nondecreasing list the count is the number of distinct clusters |
| `RecordBc.RecordBadClusters12` | format/recordbc.c:50-168 | a broken system area is reported by part and nothing is written; otherwise the table goes sector by sector to the first FAT and, for exactly two FATs, to the second |
| `RecordBc.Sector16Marks` | format/recordbc.c:252-260 | a FAT sector marks exactly the listed clusters of its range |
| `RecordBc.Recorded16Sectors` | format/recordbc.c:266-287 | exactly the FAT sectors with a listed cluster are written, in one FAT or both |
| `RecordBc.Recorded16Marks` | format/recordbc.c:224-287 | on a cleared FAT a covered cluster ends up marked exactly when it is listed |
| `RecordBc.CoveredIff` | format/recordbc.c:286-287 | all listed clusters are marked exactly when the outer loop reaches their sectors, which it always does with one reserved sector |
| `RecordBc.SecondReservedSectorCosts` | format/recordbc.c:286-287 | a volume with two reserved sectors and 32 per FAT on which a listed cluster stays clear in both FATs |
| `RecordBc.HeaderIff` | format/recordbc.c:266-275 | entries 0 and 1 stay what they are to be if and only if there is one reserved sector or no cluster below 256 is listed; otherwise both FATs get zeros there |
| `RecordBc.HeaderLost` | format/recordbc.c:266-275 | the same volume, on which a listed cluster costs entries 0 and 1 of both FATs |
| `RecordBc.SectorDone` | format/recordbc.c:229-264 | when the inner loop stops all clusters of the sector have been marked and none behind it |
| `RecordBc.RecordBadClusters16` | format/recordbc.c:170-288 | for a nondecreasing list the nested loops end and write exactly those sectors; the cluster count is exact |
| `RecordBc32.FirstFat` | format/recordbc.c:324-376 | exactly the listed clusters not yet marked get the mark; every other entry keeps its value |
| `RecordBc32.Mirrored` | format/recordbc.c:369-371 | FATs that were alike stay alike and nothing outside them is written |
| `RecordBc32.MarksAreFresh` | format/recordbc.c:357-362 | the count is the number of distinct listed clusters that had not been marked |
| `RecordBc32.MarkOne` | format/recordbc.c:337-373 | one read-modify-write marks its entry unless it is marked |
| `RecordBc32.RecordBadClusters32` | format/recordbc.c:290-381 | the disk after the loop, or the part reported broken |
| `SurfaceScan.InChunkAre` | format/uformat.c:199-237 | a chunk reports exactly the sectors that differ, or all 21 after a failed transfer |
| `SurfaceScan.ReportedAre` | format/uformat.c:167-274 | a sector is reported if and only if it lies in the chunk of a transfer the scan makes that failed, or was read there and is defective |
| `SurfaceScan.TransfersCover` | format/uformat.c:181-196 | every sector from 1 on lies in a transfer of the scan |
| `SurfaceScan.FailedIsFound` | format/uformat.c:199-237 | a failed transfer has all 21 sectors of its chunk reported |
| `SurfaceScan.FoundIsDefective` | format/uformat.c:199-237 | when no transfer of the scan fails the reported sectors are the defective ones |
| `SurfaceScan.ReportedSorted` | format/uformat.c:181-196 | the report is nondecreasing in spite of the overlapping last chunk |
| `SurfaceScan.CheckChunk` | format/uformat.c:173-237 | a chunk enters its report in the list, or the scan ends with a bad sector below 5 |
| `SurfaceScan.ScanSurface` | format/uformat.c:117-285 | the scan gives up exactly when a sector below 5 is reported, and otherwise lists the report |
| `BadClusterLaws.PreserveAndRecord12` | format/recordbc.c:106-167 | FAT12 round trip: exactly the clusters 2..4079 that held FF1h..FF7h are marked in each FAT, the others are free |
| `BadClusterLaws.RoundTrip16` | format/recordbc.c:224-287 | FAT16 round trip through the cleared FAT: exactly the formerly bad clusters are marked in each FAT, as far as the outer loop gets, which with one reserved sector is to the end |
| `BadClusterLaws.ListStandsFor` | format/bcread.c:202-210 | a list made by a scan is in order, begins in the data area and is translated back to exactly the bad clusters |
| `BadClusterLaws.RoundTrip32` | format/recordbc.c:324-376 | FAT32 round trip, for any number of reserved sectors; the mark is itself read as bad |
| `BadClusterLaws.AttributedTo` | format/recordbc.c:233-238 | the sectors attributed to a cluster: its first and those of the cluster before that are not its first |
| `BadClusterLaws.ListedIffFound` | format/uformat.c:117-285 | on media on which any transfers may fail, when at most 1024 sectors are reported: the list stands for exactly the clusters to which a sector found bad is attributed |
| `BadClusterLaws.ScanIsRecorded12` | format/recordbc.c:92-167 | scan and recording together on 12 bits: in each FAT a cluster is marked exactly when a sector attributed to it was found bad, and free otherwise |
| `BadClusterLaws.ScanIsRecorded16` | format/recordbc.c:224-287 | the same on 16 bits, as far as the outer loop gets |
| `BadClusterLaws.ScanIsRecorded32` | format/recordbc.c:324-376 | the same on 32 bits, where entries marked before keep their value and so do all others |
| `Floppy.PassedNext` | format/floppy.c:73-81 | one step of the interleave walk passes exactly one new place |
| `Floppy.PlaceLeft` | format/floppy.c:76-81 | a new round begins at a place not yet passed as long as there is one |
| `Floppy.StandingStep` | format/floppy.c:71-84 | each turn numbers one new place, later than all before in the order of the walk |
| `Floppy.ComputeInterleave` | format/floppy.c:57-84 | for every track length and factor of at least 1 the map is a permutation of 1..n, numbered in the order of the interleave walk |
| `Floppy.RoundIsRemainder` | format/floppy.c:73-81 | the round in which a place is passed is its number modulo the factor |
| `Floppy.TurnOnce` | format/floppy.c:118-130 | one turn of the skew moves the last number to the front |
| `Floppy.ComputeSkew` | format/floppy.c:105-134 | no skew for standard formats, three turns for the others |
| `Floppy.TurnedIsRotation` | format/floppy.c:114-134 | k turns are the rotation by k modulo the track length |
| `Floppy.TurnedIsLayout` | format/floppy.c:114-134 | turning keeps the map a permutation |
| `Floppy.SkewedIsTurned` | format/uformat.c:84-103 | cylinder k of an extra large format uses the first map turned by 3k |
| `Floppy.FormatRun` | format/uformat.c:84-103 | every map of a format is a permutation, the one of cylinder k the k-th skew of the first |
| `AsmTable.NumberFits` | debug/mktables.c:720-725 | a variant number never reaches the markers, and gives back opcode information and operand index |
| `AsmTable.OneRoundTrip` | debug/mktables.c:930-962 | a recorded variant is read back with lock flag, machine, opcode information, operand index and second escape byte |
| `AsmTable.AfterStray` | debug/mktables.c:939-944 | what stands behind a machine byte without a variant cannot be read as the next variant |
| `AsmTable.StraySpoils` | debug/mktables.c:679-687 | a machine digit on a disassembler-only variant spoils what is read behind it |
| `AsmTable.RoundTrip` | debug/mktables.c:926-969 | the recorded variants come back if and only if no disassembler-only variant carries a machine digit |
| `AsmTable.StrayExample` | debug/mktables.c:659-728 | an input that does not come back |
| `AsmLines.FirstByte` | debug/mktables.c:910-925 | no variant begins with a byte that could be taken for a prefix or a directive |
| `AsmLines.PrefixesEnd` | debug/mktables.c:909-923 | the prefix loop stops exactly behind the size and address prefixes |
| `AsmLines.InstructionDump` | debug/mktables.c:908-971 | the data of an instruction are shown with their prefixes and all recorded variants |
| `AsmLines.LineRoundTrip` | debug/mktables.c:899-972 | both mnemonics of a line are shown with what the line says, whatever the table holds elsewhere |
| `AsmLines.TableRoundTrip` | debug/mktables.c:894-974 | every line of a whole table is read back from where it was entered |
| `AsmWriter.Table.Add` | debug/mktables.c:240-245 | a byte is appended, or the table overflows at 2048 |
| `AsmWriter.Table.AddVariant` | debug/mktables.c:593-728 | the bytes written for a variant are its encoding; the check against the markers never strikes |
| `AsmWriter.Table.AddLine` | debug/mktables.c:536-753 | the bytes written for a line: head, addendum, variants or prefix, end mark |
| `AsmWriter.Table.WriteTable` | debug/mktables.c:536-754 | the whole table is written or overflows, and each line is entered where the lines before it end |
| `AsmWriter.Table.Dump` | debug/mktables.c:899-972 | the printing loops compute the decoding |
| `AsmWriter.WriteAndDump` | debug/mktables.c:536-974 | writing a table and printing a line of it gives back what the line says |
| `AsmOrder.Below` | debug/mktables.c:224-232 | the keys at or below a key are itself and those at or below what is named below it |
| `AsmOrder.PathGrows` | debug/mktables.c:229-231 | on an acyclic order the recursion never comes to a key it has come from |
| `AsmOrder.MarkSmall` | debug/mktables.c:219-232 | marksmall ends and marks exactly the keys at or below its argument, and leaves the other marks |
| `AsmOrder.CheckOrder` | debug/mktables.c:687-691 | a line passes exactly when no later key lies at or below an earlier one |
| `FastCopy.FilledMeansAllocated` | diskcopy/fastcopy.c:58-82 | the test on a data sector concerns exactly the entry of the cluster that contains it |
| `FastCopy.LabelIsEntry` | diskcopy/fastcopy.c:73-81 | the masked word is zero exactly when the packed entry is |
| `FastCopy.ReadIffSafe` | diskcopy/fastcopy.c:243-260 | with whatever start of data and place of the FAT: a block is read for every content of the disk for which a sector of it is in use, if and only if the entries looked up for its sectors comprise those they belong to; with the right start and place it always is |
| `FastCopy.SafeIsRead` | diskcopy/fastcopy.c:243-260 | a safe block is read when a sector of it is in use by the FAT of the disk |
| `FastCopy.UnsafeIsLost` | diskcopy/fastcopy.c:243-260 | for any other block a content of the disk for which a sector in use is left out |
| `FastCopy.RequiredBlock` | diskcopy/fastcopy.c:251-259 | which blocks are read: those before the first data block, those with an allocated sector, and one that begins exactly with the data area |
| `FastCopy.SizeIsExact` | diskcopy/fastcopy.c:84-116 | the announced size equals the size of the blocks that are read if and only if the system area lies within the volume and no free block begins exactly with the data area |
| `FastCopy.SizeIsShort` | diskcopy/fastcopy.c:102-113 | an empty 1440K diskette with 208 root entries, for which the announced size is one block too small |
| `FastCopy.FastCopier.GetDataStart` | diskcopy/fastcopy.c:46-56 | the start of data is worked out once and not again for another boot record |
| `FastCopy.FastCopier.IsSectorFilled` | diskcopy/fastcopy.c:67-82 | true exactly for sectors taken for an allocated cluster, by the start of data in use, cached or not |
| `FastCopy.FastCopier.IsDiskReadRequired` | diskcopy/fastcopy.c:243-260 | true exactly for the blocks that have to be read by the start of data in use, always in full mode |
| `FastCopy.FastCopier.GetDiskFilledSize` | diskcopy/fastcopy.c:84-116 | the size computed by the counting loop, by the start of data in use |
| `TwoDriveCopy.CopyPass` | diskcopy/tdrvcpy.c:158-204 | the blocks that are read are replaced on the target, everything else is untouched, whatever start of data is cached |
| `TwoDriveCopy.VerifyPass` | diskcopy/tdrvcpy.c:194-221 | the comparison finds no mismatch, with the serial numbers cleared on both sides |
| `TwoDriveCopy.SameButSerial` | diskcopy/serialnm.c:42-72 | clearing the serial number undoes its update |
| `TwoDriveCopy.Copy` | diskcopy/tdrvcpy.c:74-224 | a pair of diskettes of the same capacity after any number of others: the target has the blocks that are read by its own boot record, the first start of data worked out and the FAT of the source; all of them in full mode, or when the FAT cannot be read; verification is silent |
| `TwoDriveCopy.Begin` | diskcopy/tdrvcpy.c:76-142 | the state a pair is copied in: the boot record of the target, and full mode when the FAT of the source cannot be read |
| `TwoDriveCopy.InUseIsCopied` | diskcopy/tdrvcpy.c:158-223 | after a copy every system sector and every sector of an allocated cluster of the source, by its own boot record and FAT, is that of the source, the serial number apart, when its block is safe |
| `TwoDriveCopy.CompleteIffSafe` | diskcopy/fastcopy.c:243-260 | for every content of the source behind its boot sector all blocks in use are read, if and only if every block is safe for the boot records of source and target and the start of data used; all are when the start is that of the source and both have the FAT at the same sector |
| `TwoDriveCopy.SecondPairLoses` | diskcopy/fastcopy.c:46-56 | a 720K pair after a 1440K pair: an allocated cluster is not copied |
| `TwoDriveCopy.LargerFatLoses` | diskcopy/tdrvcpy.c:93-103 | a target of the same capacity with larger FATs: an allocated cluster is not copied |
| `TwoDriveCopy.FatElsewhereLoses` | diskcopy/tdrvcpy.c:93-113 | a target of the same capacity with one more reserved sector: an allocated cluster is not copied |
| `TwoDriveCopy.LoopCoversData` | diskcopy/tdrvcpy.c:141-158 | the loop reaches behind the last cluster if and only if data begin at a multiple of the cluster size, or exceed one by more than the sectors cut off, or by no more than the last block goes beyond the cut |
| `TwoDriveCopy.WholeBlocksCover` | diskcopy/tdrvcpy.c:141-158 | on a volume of whole 32-sector blocks whose clusters divide a block it always does |
| `TwoDriveCopy.LastSectorLost` | diskcopy/tdrvcpy.c:141-158 | a volume on which a sector of the allocated last cluster is not copied |
| `Numbers.DigitsValue` | emm386-himem/PRF.C:157-163 | the digits denote the number |
| `Numbers.NoLeadingZero` | emm386-himem/PRF.C:157-163 | there is no leading zero |
| `Numbers.DigitsLength` | emm386-himem/PRF.C:157-163 | a number below 2^k has at most k digits in any base |
| `Numbers.Generate` | emm386-himem/PRF.C:156-163 | the loop ends and leaves the digits in reverse |
| `Numbers.ReverseInPlace` | emm386-himem/PRF.C:166-171 | the digits are reversed in place and nothing else changes |
| `Numbers.Ltob` | emm386-himem/PRF.C:136-173 | the text of the number in the base, signed for base -10, ended by a NUL |
| `Numbers.WrapStep` | emm386-himem/USEFUL.C:130 | wrapping to 32 bits at every digit is wrapping once at the end |
| `Numbers.GetValue` | emm386-himem/USEFUL.C:112-149 | the value of the leading digits, wrapped and scaled, and the text with them removed |
| `Numbers.RoundTrip` | emm386-himem/USEFUL.C:112-149 | GetValue on the text of ltob and any rest that does not go on with a digit returns the number, negative ones included, and leaves the rest |
| `Numbers.RoundTripSuffix` | emm386-himem/USEFUL.C:133-141 | with a suffix the number is scaled and the suffix becomes a space |
| `Numbers.SignIsLost` | emm386-himem/USEFUL.C:117-131 | a number printed with a minus sign is read as 0 |

## Left out

- All BIOS and DOS calls, retries, drive locking, prompts, progress display and printf formatting.
- Abort with ESC in the surface scan, recovery of read errors in the disk copy, and single-drive copies.
- last_bad_sector in the surface scan is never updated by the code, so its test never holds back an entry and is not modelled.
- The C-string forms of the string functions, `DSinsertchar`, `DSreplacechar` and the `find_first_of` family: twins of what is modelled.
- Bytes kept in reserve behind the end of a string or an array.
- Unaligned memory in the word-at-a-time functions beyond the choice of the byte loop; 64-bit words beyond the zero test.
- DynStr.DString.Replace: asks for `p0 + n0` inside the string, as the code computes the length of the tail without a check.
- `translate_string`, reading of lines from the console, reading and writing of files in edlin.
- RecordBc.RecordBadClusters16: asks for a nondecreasing list, because the inner loop does not end on a cluster below its sector.
- RecordBc.RecordBadClusters12: asks for clusters up to 4095 and at most 12 sectors per FAT, because the table buffer ends there.
- SurfaceScan.ScanSurface: asks for at least two sectors, because the clipping loop goes below sector 0 otherwise.
- BcRead.BadClustPreserve32: takes the size of the FAT as one number instead of two 16-bit halves.
- Floppy.ComputeSkew: asks for at least two sectors per track, because the loop would write below the map for one.
- Disassembler tables, mnemonic text and hash, slash and star tables of `debug/mktables.c`; the variants come parsed.
- AsmLines.LineRoundTrip: asks that a line with a size pair has no directive addendum and that one without any mark has a recorded variant, as the lines of the instruction set do; what is shown for other lines is not modelled.
- AsmOrder.MarkSmall: asks for an acyclic order, because the recursion does not end on a cycle.
- `IsSectorUsed` and FAT type detection in the fast copy, image files.
- `%` formats of the EMM386 runtime around `ltob`, and the search for command-line options.
