# Versionr: verified models

A Dafny 4.11 project that models four pieces of the Versionr repository and proves what they promise.
`dafny verify dfyconfig.toml` checks all of it.

**The LZHL codec** (`lzhl-master`). A streaming LZ77 compressor with an adaptive two-level code: a
4-bit group, then an index within the group. The two ends exchange almost no table data; they stay in
step because both count the same symbols, sort the counts the same way, and keep the same 16 KiB ring.
The model has the source's classes with their fields updated in place (`EncoderStat`, `Encoder`,
`LZBuffer`, `Compressor`, `Decompressor`) and proves them against pure specifications:

- `Bits` — registers as left-aligned bit strings, shifts and `|` in 32 bits.
- `HuffStat`, `GroupCode`, `EncoderStat`, `Tables` — sorting the counts, choosing 16 group widths,
  assigning codes, and the tables of both sides, the initial ones included.
- `Adaptive` — the state of either side and what one symbol does to it.
- `Decoding` — what the decoder makes of any bit string. `Broken` stands for an assertion of the
  program that fails, or a read outside its tables.
- `Tokens`, `MatchCodes`, `Encoder` — printing literals and matches, and parsing them back.
- `Window`, `Lz`, `Hash`, `Compressor` — the ring, the rolling hash, and a match search whose table of hints
  may hold anything as far as correctness goes, and holds exactly the latest positions of the block.
- `Decompressor`, `Size`, `Stream` — the decoder, the size of a block, and whole runs of blocks.

The main result is `Streams.RoundTrip`: any blocks sent through one compressor come back exactly
through one decompressor. It rests on `Compressor.Compress` (the tokens put mean the block, whatever
the hints), `Tokens.BlockArrives` (printed tokens parse back and leave both sides in step),
`Encoder.Flush` and `Decompressor.Decompress` (bytes against bits).

The constructor of the ring leaves its memory uninitialised, and a backward match may reach bytes
that were never written. How far, is bounded: every hint names a byte that has been sent, and a
match is extended to the left over at most 64 literals, so no match copies from more than 64 places
before the first byte ever sent (`Compressor.Compress`). The round trip therefore asks that the last
64 bytes of the two memories agree, and nothing of the others. `Streams.WindowsMustAgree` is about
runs of tokens, whoever put them: those that copy from no earlier than a bound mean the same to two
windows exactly if the windows agree from there on. That the compressor's bound of 64 is reached is
not shown. A decoder forgets at the start of a block how many bits are left in its register, but not
the bits, which are or-ed into the next block's first byte (`Decompressors.Seen`); after a block
that was accepted in a paired run there is no set bit left.

**Version replay with snapshots** (`VersionrCore/WorkspaceDB.cs`; `Replay`, `Repair`, `Duplicates`,
`Listing`, `WorkspaceDB`). The record set of a version is the replay of all alterations along its
parent chain. Snapshots shorten that replay, and upgrade passes rewrite the stored alterations.
Tables are maps and sequences of rows; a query is a lookup. A version's alterations apply in reverse
of stored order. Merging duplicate records does not always commute with the replay;
`Duplicates.RelinkedReplay`, `RelinkedExactly` and `RelinkedOutcome` say exactly when it does, and
what comes out when it does not.

**The flat file tree** (`VersionrCore/FileStatus.cs`, `VersionrCore.Posix/FileSystem.cpp`;
`FlatTree`, `TreeWalk`, `FlatWalk`). Two producers emit a preorder list with descendant counts; one
consumer walks it by index arithmetic and leaves parts of it to tasks. The ignore rules are
arbitrary functions, and a scan that runs its tasks in any order finds exactly what the recursion
over the tree finds, which is told node by node in `TreeWalk`.

**Line endings** (`Bomerman/Clean.cs`, `Bomerman/SetEOL.cs`; `Blanks`, `LineEndings`). A cursor over
lines, the check for newline-only changes, and the unification of line endings.

Where the code and its comments or messages differ, the model follows the code:

- `scanrec` skips every name that begins with two dots, not only `..`; the portable producer skips
  only directories named `.` and `..`.
- `NewLineCheckFast` does not look at further lines of the new text.
- The multiple-move pass stores its deletions last, so that a replay applies them first.
- The consistency check does not empty the cache of records. `WorkspaceDB.CleanRecords` says when
  the cache still holds what the tables hold, `StaleCache` gives an input for which it does not, and
  `GetRecords` is proved for such a cache too: it lists the right records, with the right contents,
  but a row may have an old name id (`Listings.ListedContents` says exactly when).
- When storing a snapshot fails after the caller's version object has been given its number, the
  tables are rolled back, the object is not. The next call with that object finds a snapshot without
  rows and returns an empty list (`WorkspaceDB.AnswerStale`), or, once the number has been given
  again, the records of another version (`AnswerRight` says when the answer is right). The same
  happens to an object that was read before the consistency check and names a snapshot.

## Model

| member | source | states |
|---|---|---|
| Bits.HoldsAppend | lzhl-master/LZHLEncoder.cpp:127-130 | or-ing a shifted code into the register appends its bits to the bit string the register holds |
| Bits.HoldsTop | lzhl-master/LZHLDecompressor.cpp:34-34 | shifting the register right reads the first bits it holds |
| Bits.HoldsDrop | lzhl-master/LZHLDecompressor.cpp:35-36 | shifting it left drops them |
| Bits.Fields | lzhl-master/LZHLEncoder.cpp:170-170 | a shifted code or-ed with extra bits is the one field followed by the other |
| HuffStat.ShellSort | lzhl-master/HuffStatTmp.cpp:23-50 | the in-place sort with gaps 40, 13, 4, 1 leaves the same items by falling count, and by falling symbol among equal counts; it gives the one such list, independent of its path |
| HuffStat.SortItemsSorts | lzhl-master/HuffStatTmp.cpp:4-15 | the reference sort is a permutation, by falling count and then falling symbol |
| HuffStat.SortedUnique | lzhl-master/HuffStatTmp.cpp:4-15 | the order is strict and total: two sorted lists with the same items are the same list |
| HuffStat.MakeSortedTmp | lzhl-master/HuffStat.cpp:15-28 | returns the copy by falling count and the total from before halving, and halves every count in place |
| HuffStat.SortedPermutes | lzhl-master/HuffStat.cpp:15-28 | the sorted copy has every symbol once, with its own count |
| HuffStat.SortedFalls | lzhl-master/HuffStat.cpp:15-28 | of two symbols the more frequent comes first, and the higher one of two that are equally frequent |
| GroupCode.InsertWidthSorts | lzhl-master/LZHLEncoderStat.cpp:30-40 | inserting a width keeps the widths sorted |
| GroupCode.FirstGroupsGood | lzhl-master/LZHLEncoderStat.cpp:52-89 | for any counts the first 14 widths are sorted, at most 8, and leave what two more groups can cover |
| GroupCode.LastTwo | lzhl-master/LZHLEncoderStat.cpp:91-131 | the last two widths cover what is left, with fewer than 255 slots to spare |
| GroupCode.GroupWidthsComplete | lzhl-master/LZHLEncoderStat.cpp:42-131 | for any counts the 16 widths are sorted, each at most 8, with at least 274 and fewer than 529 slots |
| EncoderStats.EncoderStat.AddGroup | lzhl-master/LZHLEncoderStat.cpp:30-40 | the bubbling insertion yields the sorted insertion of the width |
| EncoderStats.EncoderStat.ChooseWidth | lzhl-master/LZHLEncoderStat.cpp:54-88 | the inner loop picks the width the specification picks, with the items it counts |
| EncoderStats.EncoderStat.ChooseLast | lzhl-master/LZHLEncoderStat.cpp:91-127 | the search for the cheapest split of the last two groups, its early stop included |
| EncoderStats.EncoderStat.AssignCodes | lzhl-master/LZHLEncoderStat.cpp:133-147 | every symbol gets the code of its slot |
| EncoderStats.EncoderStat.CalcStat | lzhl-master/LZHLEncoderStat.cpp:42-148 | counts halved, widths and code table those of the specification, countdown restarted; of two symbols the more frequent gets no longer code |
| EncoderStats.EncoderStat.Reset | lzhl-master/LZHLEncoderStat.cpp:14-19 | counts zero, countdown 4096, initial code table |
| EncoderStats.WidthsComplete | lzhl-master/LZHLEncoderStat.cpp:42-131 | the widths chosen for any count vector give every symbol a slot |
| EncoderStats.FrequentShorter | lzhl-master/LZHLEncoderStat.cpp:133-147 | the law of the code: for any counts, a symbol more frequent than another has no longer code |
| EncoderStats.NearestWidth | lzhl-master/LZHLEncoderStat.cpp:52-89 | widths are tried up to the first that takes more than the fair share, and none of them comes closer to it than the one picked |
| EncoderStats.CheapestSplit | lzhl-master/LZHLEncoderStat.cpp:91-127 | splits are considered until one costs no less than one before, and none of them is cheaper than the one chosen |
| Tables.RebuiltTablesAgree | lzhl-master/LZHLDecompressor.cpp:92-117 | group and symbol tables rebuilt from the sorted counts and the widths invert the code table |
| Tables.PrefixFree | lzhl-master/LZHLDecompressor.cpp:49-76 | a code table that such tables invert is a prefix code |
| Tables.InitialTablesAgree | lzhl-master/LZHLDecoderStat.cpp:14-20 | the three initial tables of encoder and decoder invert each other |
| Adaptive.RecodedPrefixCode | lzhl-master/LZHLEncoderStat.cpp:133-147 | whatever the counts, codes have 4 to 12 bits and none begins another |
| Adaptive.PutBounded | lzhl-master/LZHLEncoder.cpp:141-148 | a put keeps the sum of the counts and the countdown below 8195, the countdown positive, and counts the symbol without wrap-around |
| Adaptive.RecalculateInStep | lzhl-master/LZHLEncoder.cpp:19-36 | a recalculation on both sides, from the widths alone, leaves tables that invert each other |
| Adaptive.InitiallyInStep | lzhl-master/LZHLEncoderStat.cpp:7-12 | new encoder and decoder are in step |
| Decoding.StepOk | lzhl-master/LZHLDecompressor.cpp:48-212 | one symbol of any input keeps the decoder's state well formed and reads at least four bits or ends the block |
| Decoding.Run | lzhl-master/LZHLDecompressor.cpp:48-212 | the decoder ends on every input, in a well-formed state, with the output buffer's size unchanged; where the program's shift is undefined (unary widths of 31 or more) it ends as Broken |
| Decoding.DoneAtEnd | lzhl-master/LZHLDecompressor.cpp:119-121 | a block is accepted only at an end symbol, read in a state that the run has reached |
| Decoding.CopyRepeats | lzhl-master/LZHLDecompressor.cpp:198-207 | an LZ77 copy is the one history that keeps the old bytes and has, at each of the len new places, the byte disp places before, which may itself have been copied |
| Tokens.ReadBack | lzhl-master/LZHLDecompressor.cpp:49-76 | the decoder reads a symbol's code as that symbol and nothing more |
| Tokens.GroupsBack | lzhl-master/LZHLDecompressor.cpp:99-116 | 16 unary differences restore the widths and slot offsets, within the asserted total |
| Tokens.LengthBack | lzhl-master/LZHLDecompressor.cpp:123-148 | length symbol and extra bits read back as the length |
| Tokens.DispBack | lzhl-master/LZHLDecompressor.cpp:150-190 | displacement prefix and bits read back as the displacement |
| Tokens.SymbolArrives | lzhl-master/LZHLEncoder.cpp:141-154 | a put symbol arrives, with the recalculation before it if one is due, and both sides are in step after it |
| Tokens.TokenArrives | lzhl-master/LZHLDecompressor.cpp:119-210 | a printed literal or match does to output and window what the token means |
| Tokens.TokensArrive | lzhl-master/LZHLDecompressor.cpp:48-212 | a run of tokens parses back, both sides in step after every token |
| Tokens.BlockArrives | lzhl-master/LZHLDecompressor.cpp:40-221 | a printed block is accepted, yields exactly what its tokens mean, reads exactly its bits, and leaves the sides in step |
| Decoding.RunMore | lzhl-master/LZHLDecompressor.cpp:48-212 | a block that is accepted is accepted with anything after it, in the same state: nothing behind the end symbol is looked at |
| Tokens.BlockTruncated | lzhl-master/LZHLDecompressor.cpp:21-38 | a printed block that lacks bits at its end is not accepted, whatever the room |
| Streams.BytesTruncated | lzhl-master/LZHLDecompressor.cpp:21-38 | and neither is one that lacks bytes |
| Tokens.BlockRejected | lzhl-master/LZHLDecompressor.cpp:81-84 | a printed block with more output than there is room for is rejected |
| MatchCodes.ShortOver | lzhl-master/LZHLEncoder.cpp:76-79 | the encoder's table prints lengths 8 to 37 over the minimum as the decoder reads them |
| MatchCodes.LongOver | lzhl-master/LZHLEncoder.cpp:81-85 | and the longer ones |
| MatchCodes.DispCode | lzhl-master/LZHLEncoder.cpp:88-112 | the encoder's displacement table prints every displacement as the decoder reads it |
| Encoders.Encoder.PutBits | lzhl-master/LZHLEncoder.cpp:127-139 | appends the code's bits to the bits put, through register and bytes |
| Encoders.Encoder.CallStat | lzhl-master/LZHLEncoder.cpp:19-36 | sends the symbol in the old code, recalculates, sends the widths; by its termination measure it is never entered from within |
| Encoders.Encoder.PutSymbol | lzhl-master/LZHLEncoder.cpp:141-154 | counts the symbol and appends its bits, with the recalculation if one is due |
| Encoders.Encoder.PutSymbolWith | lzhl-master/LZHLEncoder.cpp:156-171 | the same with extra bits in one code |
| Encoders.Encoder.PutRaw | lzhl-master/LZHLEncoder.cpp:38-42 | what has been put is the block so far and the literals |
| Encoders.Encoder.PutMatch | lzhl-master/LZHLEncoder.cpp:44-113 | what has been put is the block so far, the literals and the match |
| Encoders.Encoder.Drain | lzhl-master/LZHLEncoder.cpp:118-122 | the bytes hold all bits put, and less than a byte of zeros |
| Encoders.Encoder.Flush | lzhl-master/LZHLEncoder.cpp:115-125 | the bytes hold the whole block with its end symbol, and the statistics are those after it |
| Windows.LZBuffer.constructor | lzhl-master/LZBuffer.cpp:5-9 | a new ring holds whatever its memory held |
| Windows.LZBuffer.ToBufByte | lzhl-master/LZBuffer.cpp:26-29 | the ring slides by one byte |
| Windows.LZBuffer.ToBuf | lzhl-master/LZBuffer.cpp:31-49 | the ring slides by the bytes stored, across its end |
| Windows.LZBuffer.BufCpy | lzhl-master/LZBuffer.cpp:51-67 | copies bytes out of the ring, across its end, and touches nothing else |
| Windows.LZBuffer.NMatch | lzhl-master/LZBuffer.cpp:69-97 | the length of the longest match up to the limit |
| Windows.SlotWrap | lzhl-master/LZBuffer.cpp:16-24 | wrapping a position in 32 bits does not change its slot |
| Lz.RepeatsCopy | lzhl-master/LZHLCompressor.cpp:108-127 | a repeat in the stream, overlapping or not, is what a match token copies |
| Lz.StoreFollows | lzhl-master/LZHLCompressor.cpp:145-166 | storing from a cursor moved back rewrites all that had been written ahead: the ring follows the stream again |
| Lz.FollowsEnd | lzhl-master/LZBuffer.cpp:26-49 | a ring that follows the stream holds its last 16384 bytes |
| Hashes.Rolls | lzhl-master/LZHMacro.hpp:62-73 | the law of the rolling hash: taking the oldest of five bytes out and the next one in gives the hash of the five bytes one further on |
| Hashes.HashSame | lzhl-master/LZHLCompressor.cpp:5-14 | equal bytes have equal hashes, wherever they stand |
| Hashes.UpdateHashEx | lzhl-master/LZHMacro.hpp:68-73 | so the hash that is carried along is the one that would be computed anew |
| Hashes.CalcHash | lzhl-master/LZHLCompressor.cpp:5-14 | the hash of the five bytes at a position |
| Hashes.HashPos | lzhl-master/LZHMacro.hpp:75-75 | table indices are in range |
| Compressors.LeftAgain | lzhl-master/LZHLCompressor.cpp:55-58 | leaving hints again for positions that have left theirs, and then for further ones, ends as if each had left its hint once, in order |
| Compressors.Compressor.SwapHint | lzhl-master/LZHLCompressor.cpp:101-105 | reads the hint of the cursor's bytes; afterwards every position of the block up to the cursor has left its own, the last at each table index |
| Compressors.Compressor.Recalled | lzhl-master/LZHLCompressor.cpp:101-109 | five bytes that occurred before in the block, less than 16384 back, are recalled by their hint and repeat enough for a match, unless a position in between has the same table index |
| Compressors.Compressor.ForwardMatch | lzhl-master/LZHLCompressor.cpp:108-127 | for any hint the match found is a repeat in the stream, of at most 521 bytes and within the block, overlap included, and no longer one starts there |
| Compressors.Compressor.BackwardMatch | lzhl-master/LZHLCompressor.cpp:129-157 | bytes are added on the left only while the ring still holds what they are compared with, the longer match is a repeat, and it cannot be extended further |
| Compressors.RingBefore | lzhl-master/LZHLCompressor.cpp:134-140 | the slot compared holds the stream byte before the match |
| Compressors.Compressor.FindMatch | lzhl-master/LZHLCompressor.cpp:101-159 | the longest match at the table's hint, none exactly without one to use, which a backward match has moved back together with the cursor and the raw count; its source starts at most 64 bytes before the first byte ever sent |
| Lz.SlotAdvance | lzhl-master/LZHLCompressor.cpp:106-109 | as the cursor advances, the distance to a hint grows by no more than that, though both wrap around |
| Compressors.Compressor.UpdateTable | lzhl-master/LZHLCompressor.cpp:35-61 | the positions inside a match leave their hints, each index the last of them, all else stays; every hint names a byte that has been sent, or will have been when the match is put; no byte past the block is read; the hash returned is that of the bytes after the match |
| Compressors.Compressor.EmitMatch | lzhl-master/LZHLCompressor.cpp:164-167 | the tokens put mean the stream up to the end of the match, and the ring follows it |
| Compressors.Compressor.TakeLazyMatch | lzhl-master/LZHLCompressor.cpp:170-181 | going back to the match kept from one byte before is sound |
| Compressors.Compressor.TakeLonger | lzhl-master/LZHLCompressor.cpp:162-183 | the longer of two matches is put, of equally long ones the one kept |
| Compressors.Compressor.EncodeRun | lzhl-master/LZHLCompressor.cpp:79-237 | a turn of the outer loop consumes at least one byte, the tokens mean the stream up to it, no assertion fails; all positions up to there have left their hints, and the hash is that of the bytes there; and if the hint at its start repeats four bytes or more, a match is put |
| Compressors.Compressor.EmitRaw | lzhl-master/LZHLCompressor.cpp:211-233 | raw bytes, with a short rest of the block |
| Compressors.Compressor.Compress | lzhl-master/LZHLCompressor.cpp:63-241 | whatever the hints, the tokens put mean exactly the block and copy from no more than 64 places before the first byte ever sent; the bytes print them; the ring holds the last bytes of the stream, and the table at every index the latest position of the block that has it, except at the index of the last five bytes |
| Compressors.Compressor.Reset | lzhl-master/LZHLCompressor.cpp:23-29 | statistics and hints begin anew, the ring stays |
| Decompressors.Seen | lzhl-master/LZHLDecompressor.cpp:30-31 | without bits left over the decoder sees the block's own bytes |
| Decompressors.LoadByte | lzhl-master/LZHLDecompressor.cpp:24-32 | loading a byte appends its bits to those in the register |
| Decompressors.Decompressor.Get | lzhl-master/LZHLDecompressor.cpp:21-38 | reads the next n bits, or -1 exactly when the block has fewer |
| Decompressors.Decompressor.GetSymbol | lzhl-master/LZHLDecompressor.cpp:49-76 | reads a symbol as specified, its error exits included |
| Decompressors.Decompressor.GetGroups | lzhl-master/LZHLDecompressor.cpp:99-114 | reads the 16 groups as specified, also on a block that ends early |
| Decompressors.Decompressor.Recalculate | lzhl-master/LZHLDecompressor.cpp:92-117 | tables and halved counts are those of the specification |
| Decompressors.Decompressor.GetDisp | lzhl-master/LZHLDecompressor.cpp:150-190 | reads a displacement, in two or three reads |
| Decompressors.CopyIsMatch | lzhl-master/LZHLDecompressor.cpp:198-207 | copying out of the ring and then out of the output itself is the LZ77 copy |
| Decompressors.Decompressor.CopyMatch | lzhl-master/LZHLDecompressor.cpp:198-210 | output and ring both gain the bytes of the match |
| Decompressors.Decompressor.Turn | lzhl-master/LZHLDecompressor.cpp:48-212 | one turn of the loop is one step of the specification |
| Decompressors.Decompressor.Decompress | lzhl-master/LZHLDecompressor.cpp:40-221 | on every input, those excepted whose unary widths reach 31: result, output, tables, ring, bytes consumed and bits left over are those of the specification |
| Decompressors.Decompressor.Reset | lzhl-master/LZHLDecompressor.cpp:12-19 | statistics, tables and register begin anew, the ring stays |
| Size.CountersBounded | lzhl-master/LZHLEncoder.cpp:141-148 | over any run no counter passes 8194 and the countdown is positive between puts |
| Size.RecalcsBound | lzhl-master/LZHLEncoder.cpp:19-22 | n symbols bring about at most 1 + n/4096 recalculations |
| Size.TokensLength | lzhl-master/LZHLEncoder.cpp:44-171 | tokens take at most 12 bits a byte and 36 for every recalculation |
| Size.BlockFits | lzhl-master/LZHLEncoder.hpp:26-28 | a block of fewer than 24576 bytes fits the buffer that calcMaxBuf sizes |
| Streams.PaddedInput | lzhl-master/LZHLDecompressor.cpp:46-46 | the decoder sees the block's bits, would consume exactly its bytes, and leaves no set bit |
| Streams.PutAndGet | lzhl-master/LZHLEncoder.cpp:115-139 | codes of 1 to 16 bits, put and flushed, are read back under any split into 1 to 8 bits, consuming the bytes they fill, with an empty register at the end |
| Streams.GetFields | lzhl-master/LZHLDecompressor.cpp:21-38 | any block, read as fields of 1 to 8 bits, gives back its bits |
| Streams.BytesArrive | lzhl-master/LZHLDecompressor.cpp:40-221 | a block's bytes, with anything after them, are accepted: exactly the tokens' meaning is written, exactly those bytes are consumed, the register ends empty, both sides are in step |
| Streams.ExpandAgrees | lzhl-master/LZHLDecompressor.cpp:198-207 | tokens that copy from no earlier than a position mean the same to histories that agree from there on |
| Streams.WindowsMustAgree | lzhl-master/LZBuffer.cpp:5-9 | for any bound, all runs of tokens that copy from no earlier mean the same to two windows exactly if the windows agree from there on |
| Streams.AllWithin | lzhl-master/LZBuffer.cpp:5-9 | all runs of tokens, also those that no compressor puts, mean the same to two windows exactly if they agree but for their oldest byte |
| Streams.WindowsMeet | lzhl-master/LZBuffer.cpp:31-49 | what is sent moves the bytes on which two windows differ further back, and in the end out of them |
| Streams.Exchange | lzhl-master/test.c:49-52 | one block through a paired compressor and decompressor comes back exactly, with its length and its compressed length, within calcMaxBuf; the pair stays paired |
| Streams.RoundTrip | lzhl-master/test.c:37-53 | every block of any run, in order, comes back exactly and no comparison ever fails, if the last 64 bytes of the two rings' memories were the same |
| Streams.ResetBoth | lzhl-master/LZHLDecompressor.cpp:12-19 | resetting both ends keeps them paired |
| Replays.Replay | VersionrCore/WorkspaceDB.cs:660-741 | a replay over known records brings in no others |
| Replays.ReplayConcat | VersionrCore/WorkspaceDB.cs:677-737 | replaying two lists is replaying the second, then the first: alterations apply from the last to the first, and one that fails fails the rest |
| Replays.ReplayTells | VersionrCore/WorkspaceDB.cs:660-741 | when a replay succeeds and what it comes to, by positions: a record is there exactly if it was before or an alteration brings it and none applied afterwards removes it; a replay fails exactly if some alteration removes a record that is not there then, or brings one that is not known |
| Replays.FullReplayStep | VersionrCore/WorkspaceDB.cs:660-741 | a version's record set is its parent's with its own alterations applied |
| Replays.ReplayFromAncestor | VersionrCore/WorkspaceDB.cs:470-497 | stopping the walk at an ancestor whose record set is known gives the same record set |
| Replays.SinceSnapshot | VersionrCore/WorkspaceDB.cs:840-843 | leaving out versions with a snapshot leaves out just the one the walk stops at |
| Replays.SnapshotsDoNotMatter | VersionrCore/WorkspaceDB.cs:468-481 | chains and their alterations do not depend on where snapshots are |
| Replays.SnapshotSaved | VersionrCore/WorkspaceDB.cs:518-559 | saving a version's record set as a new snapshot keeps all snapshots correct |
| WorkspaceDBs.WorkspaceDB.CacheRecords | VersionrCore/WorkspaceDB.cs:581-640 | in batches of 256, exactly the records that can be found are added, as the tables have them; what was cached stays |
| WorkspaceDBs.WorkspaceDB.Consolidate | VersionrCore/WorkspaceDB.cs:642-753 | throws exactly when the replay fails, and else lists exactly its records, once each |
| WorkspaceDBs.WorkspaceDB.CollectParents | VersionrCore/WorkspaceDB.cs:468-481 | the walk starts from the caller's copy of the version and ends at the first version with a snapshot, or at the root |
| WorkspaceDBs.WorkspaceDB.SaveSnapshot | VersionrCore/WorkspaceDB.cs:523-543 | a fresh snapshot with one reference a record, and the version points to it; a failure rolls back the tables, but not the caller's copy of the version |
| Listings.ReplaySeen | VersionrCore/WorkspaceDB.cs:570-579 | a replay of stored alterations gives the same from a cache that serves as from the tables |
| WorkspaceDBs.WorkspaceDB.AnswerSeen | VersionrCore/WorkspaceDB.cs:468-498 | the nearest snapshot's records and the alterations since give what the full replay gives, failure included, also from a cache with old name ids |
| WorkspaceDBs.WorkspaceDB.AnswerRight | VersionrCore/WorkspaceDB.cs:468-497 | the answer is the version's record set exactly if the caller's copy names no snapshot or one that lists it, and so it is for a copy that equals the table's row |
| WorkspaceDBs.WorkspaceDB.AnswerStale | VersionrCore/WorkspaceDB.cs:535-542 | for a copy that names a snapshot without rows, as after a failed save, the answer is empty |
| WorkspaceDBs.WorkspaceDB.GetRecords | VersionrCore/WorkspaceDB.cs:452-561 | wherever correct snapshots are, exactly the records of the answer are listed, once each, with the contents that the tables hold; a new snapshot is stored exactly if the nearest one has fewer records than there are alterations since, or there are many of these in many versions; all snapshots of the tables stay correct, and the next answer stays the same unless a save fails after the copy was changed |
| Listings.ListedContents | VersionrCore/WorkspaceDB.cs:570-579 | listed records have the contents of the tables; their rows are the tables' exactly if no listed record was cached with another row |
| Repairs.WellFormedReplay | VersionrCore/WorkspaceDB.cs:677-737 | a version with live priors and fresh records replays exactly when it removes none twice, and then to the old set less removals plus arrivals |
| Repairs.FixedMovesOnce | VersionrCore/WorkspaceDB.cs:141-168 | after the pass no source is moved twice |
| Repairs.FixedRemovesOnce | VersionrCore/WorkspaceDB.cs:141-168 | and no record is removed twice |
| Repairs.FixedReplay | VersionrCore/WorkspaceDB.cs:131-171 | after the pass the version replays to the old set less every moved source plus every target; before, it replayed only if no source was moved twice |
| Repairs.FixedChainReplays | VersionrCore/WorkspaceDB.cs:131-172 | and so does the whole chain of versions |
| WorkspaceDBs.WorkspaceDB.FindMoves | VersionrCore/WorkspaceDB.cs:138-150 | marks exactly the sources moved more than once; fails exactly if a move has no source |
| WorkspaceDBs.WorkspaceDB.DemoteMoves | VersionrCore/WorkspaceDB.cs:151-163 | repeated moves become copies, and their sources are collected |
| WorkspaceDBs.WorkspaceDB.FixMoves | VersionrCore/WorkspaceDB.cs:137-168 | one version's alterations take the repaired form; other versions' stay as they are |
| Repairs.PassMends | VersionrCore/WorkspaceDB.cs:131-172 | after the pass every chain that was well formed but for repeated moves replays to what its versions meant |
| WorkspaceDBs.WorkspaceDB.FixAllMoves | VersionrCore/WorkspaceDB.cs:131-172 | exactly if every move in the list of a version has a prior record, all versions are repaired and lose their snapshots, every chain replays to what was meant, and snapshots are correct; else everything is rolled back |
| Duplicates.KeysAreContents | VersionrCore/WorkspaceDB.cs:278-279 | with unique names two rows share a key exactly if data, name and time are the same |
| Duplicates.MergedRecord | VersionrCore/WorkspaceDB.cs:276-302 | a record and the one that stands for it have the same data, name and time |
| Duplicates.MergedUnique | VersionrCore/WorkspaceDB.cs:276-302 | the rows that stay have distinct keys and ids |
| Duplicates.RelinkedApply | VersionrCore/WorkspaceDB.cs:286-297 | one relinked alteration does to the image what it did to the set, exactly unless it removes a record with a twin and brings none with the same key |
| Duplicates.RelinkedReplay | VersionrCore/WorkspaceDB.cs:286-297 | after every alteration the relinked replay holds the image of what the old one held, exactly if no alteration removes a record with a twin, unless it brings one with the same key |
| Duplicates.RelinkedOutcome | VersionrCore/WorkspaceDB.cs:286-297 | what the relinked alterations replay to, whatever they are: the image less the keys that were lost and not brought back, or a failure where a lost key is removed again |
| Duplicates.RelinkedExactly | VersionrCore/WorkspaceDB.cs:286-297 | the relinked alterations replay to the image exactly if no key is missing at the end |
| Duplicates.DistinctNeverLoses | VersionrCore/WorkspaceDB.cs:286-297 | a replay that never holds two records with one key loses none |
| Duplicates.MergeCommutes | VersionrCore/WorkspaceDB.cs:275-302 | merging commutes with replaying a whole chain exactly if no key is missing at the end, and with every replay on the way exactly if no alteration loses a key |
| Duplicates.AncestorsCommute | VersionrCore/WorkspaceDB.cs:275-302 | if no alteration of a chain loses a key, merging commutes with the replay of every ancestor |
| Duplicates.MergeNeedsDistinct | VersionrCore/WorkspaceDB.cs:275-302 | an input with twins for which it does not commute: both copies are gone |
| Duplicates.MergedFind | VersionrCore/WorkspaceDB.cs:276-302 | merged records are not found any more, all others are found as before |
| Duplicates.MergedGone | VersionrCore/WorkspaceDB.cs:288-297 | no relinked alteration mentions a merged record |
| Duplicates.CanonicalNames | VersionrCore/WorkspaceDB.cs:253-266 | the new table has exactly the names of the old one |
| WorkspaceDBs.WorkspaceDB.NormaliseNames | VersionrCore/WorkspaceDB.cs:246-274 | every name is stored once, in order of first occurrence, every record keeps its name, and the references of all snapshots are gone; fails exactly if a record has no name |
| WorkspaceDBs.WorkspaceDB.RelinkAll | VersionrCore/WorkspaceDB.cs:288-296 | every link to the one record becomes a link to the other |
| WorkspaceDBs.WorkspaceDB.MergeDuplicates | VersionrCore/WorkspaceDB.cs:275-302 | the first row with each key stays and all alterations are relinked to it |
| WorkspaceDBs.WorkspaceDB.ForgetSnapshots | VersionrCore/WorkspaceDB.cs:324-327 | every version loses its snapshot and nothing else |
| Listings.CleanedServes | VersionrCore/WorkspaceDB.cs:246-302 | after the check the cache, which is not emptied, still serves: contents are right, and merged records are mentioned no more |
| Listings.CleanedInStep | VersionrCore/WorkspaceDB.cs:246-302 | it is in step with the tables exactly if no cached record was merged or got another name id |
| WorkspaceDBs.WorkspaceDB.CleanRecords | VersionrCore/WorkspaceDB.cs:243-327 | the passes together: contents are kept, snapshots and their references are gone and so correct, every chain commutes exactly as MergeCommutes says, and the cache serves, in step or not |
| WorkspaceDBs.WorkspaceDB.StaleCache | VersionrCore/WorkspaceDB.cs:253-271 | an input after which the cache is not in step with the tables, but serves |
| FlatTrees.FlatSize | VersionrCore/FileStatus.cs:637-676 | a flat list has one entry for every node that is listed |
| FlatTrees.FlatNodeSize | VersionrCore.Posix/FileSystem.cpp:29-42 | a directory's count is the number of its descendants |
| FlatTrees.EntryList.Handle | VersionrCore/FileStatus.cs:25-55 | the callback adds an entry or patches the one opened that many entries ago |
| FlatTrees.EntryList.ScanRec | VersionrCore.Posix/FileSystem.cpp:15-53 | the events, in order, build the preorder list with exact counts, and the count returned is its length |
| FlatTrees.EntryList.GetEntriesRecursive | VersionrCore/FileStatus.cs:637-676 | the portable producer builds the preorder list with exact counts too |
| FlatTrees.PosixKeeps | VersionrCore.Posix/FileSystem.cpp:23-27 | the native producer reports a node exactly if its name is not a dot and does not begin with two |
| FlatTrees.ListKeeps | VersionrCore/FileStatus.cs:642-645 | the portable one reports all but the directories named with one dot or two |
| TreeWalks.AdministrationFolder | VersionrCore/FileStatus.cs:780-788 | the check that the administration folder has no descendants cannot fail on a produced list |
| TreeWalks.WalkFinds | VersionrCore/FileStatus.cs:764-853 | for any rules the scan yields exactly the entries of the listed nodes: all directories above them are shown and not administration folders; a directory is listed unless the one it is in is ignored, a file unless the contents of the one it is in are ignored; of an ignored directory the files are listed and nothing deeper |
| TreeWalks.EntrySays | VersionrCore/FileStatus.cs:794-848 | an entry has its node's path, name, time, size and attributes, the entry of its directory, and is marked as ignored by its rule or, for a file, by an ignored directory |
| TreeWalks.ListedExactly | VersionrCore/FileStatus.cs:764-853 | if names are distinct in every directory, a node has its entry in the scan exactly if it is listed |
| TreeWalks.WalkOnce | VersionrCore/FileStatus.cs:764-853 | and no entry occurs twice |
| TreeWalks.EveryNode | VersionrCore/FileStatus.cs:764-853 | with rules that hide and ignore nothing there is one entry for every node |
| FlatWalks.Scan.ProcessListFast | VersionrCore/FileStatus.cs:764-853 | what is found, and what started tasks will find, grows by exactly what the recursion over the tree yields |
| FlatWalks.Scan.ProcessDirectory | VersionrCore/FileStatus.cs:773-841 | a directory with its rules, and the index steps over exactly its descendants |
| FlatWalks.Scan.MarkIgnored | VersionrCore/FileStatus.cs:807-825 | an ignored directory yields its direct files only |
| FlatWalks.DueWithout | VersionrCore/FileStatus.cs:830-834 | the order in which tasks are taken does not matter |
| FlatWalks.Scan.RunTasks | VersionrCore/FileStatus.cs:738-740 | run in any order, the tasks end and find all that was due |
| FlatWalks.GetEntryList | VersionrCore/FileStatus.cs:718-745 | the whole scan, with or without a root entry, is the recursion over the tree, and finds exactly the entries of the listed nodes |
| LineEndings.PrintLines | Bomerman/Clean.cs:196-264 | lines and endings together are the text |
| LineEndings.LinesPrint | Bomerman/Clean.cs:196-264 | a list of lines survives printing and tokenising exactly if it is one a text can have |
| LineEndings.LineEndingCursor.NextLine | Bomerman/Clean.cs:234-263 | moves to the next line of the text, if there is one |
| LineEndings.LineEndingCursor.LineEnding | Bomerman/Clean.cs:215-233 | the ending of the current line |
| Blanks.WSInvariantString | Bomerman/Clean.cs:357-379 | runs of blanks collapsed, blanks at the end removed: the result has no blank at its end, no two next to each other, and no tab |
| Blanks.RunsUnique | Bomerman/Clean.cs:357-379 | every line has one list of maximal runs without blanks, in terms of positions |
| Blanks.SameInvariant | Bomerman/Clean.cs:350-355 | two lines compare as equal up to blanks exactly if these runs have the same texts, one after the other, and both or neither begin with a blank |
| LineEndings.CompareLines | Bomerman/Clean.cs:294-317 | accepts two lines exactly if they are equal, or equal up to blanks when that is allowed |
| LineEndings.SimilarWords | Bomerman/Clean.cs:294-317 | that is, if they have the same texts between blanks and begin alike |
| LineEndings.NewLineCheckFast | Bomerman/Clean.cs:266-348 | true exactly if every old line has a matching new line; text is returned exactly if something differs, and it is the old text |
| LineEndings.TargetIsMostFrequent | Bomerman/SetEOL.cs:152-165 | without an option, no ending is more frequent than the one chosen, and of equally frequent ones CR is chosen before LF and LF before CRLF |
| LineEndings.OneEnding | Bomerman/SetEOL.cs:126-201 | the text afterwards has the lines of the text before and no ending but the one chosen, in terms of its characters |
| LineEndings.AskedEnding | Bomerman/SetEOL.cs:137-142 | with options set, that is the one asked for, CRLF before CR before LF |
| LineEndings.UnifyLineEndings | Bomerman/SetEOL.cs:126-201 | writes the lines with the chosen ending, exactly if some ending differs from it; no other ending is in the text afterwards |
| LineEndings.UnifiedIsNormal | Bomerman/SetEOL.cs:126-201 | the text written has the same lines, all with the chosen ending; a second run chooses the same ending and changes nothing |

## Left out

- The exported C functions of `LZHL.cpp`, allocation and destructors: wrappers.
- Hash quality, compression ratio and the optimality of the group widths beyond `NearestWidth` and `CheapestSplit`: nothing is said of how often two positions share a table index.
- Encoders.Encoder.PutBits: the output is a growing sequence of bytes instead of a caller's buffer; `Size.BlockFits` says how long it gets.
- Windows.LZBuffer.ToBuf: `memcpy` is a parallel assignment of bytes.
- Decompressors.Decompressor.Decompress: where an assertion of the program fails or it would read outside a table, the model stops with `Broken` and claims nothing about the program. A unary width of 31 or more makes the program's shift undefined; the model computes the power and reports `Broken`.
- Compressors.Compressor.EncodeRun: hints for the inside of a match are left before the match is put, not after; neither touches what the other uses.
- Size.BlockFits: nothing is claimed of `calcMaxBuf` for blocks of 24576 bytes or more, where the bound of 12 bits a byte no longer fits.
- SQLite, object mapping and SQL text: tables are values, queries are lookups, a transaction that fails is a parameter or a rollback.
- WorkspaceDBs.WorkspaceDB.GetRecords: on failure the program also runs the consistency check before it throws again; the model returns failure, and `CleanRecords` is a call of its own, after which the contract of the retry applies. The chain of parents is taken to end, as it does for versions whose parents exist.
- WorkspaceDBs.WorkspaceDB.CacheRecords: the list it returns, which no caller uses; and that a record handed out is the cached object itself.
- WorkspaceDBs.WorkspaceDB.Consolidate: the list of deletions, which `GetRecords` never asks for, the debug output, and the order of the resulting list, which a dictionary does not promise.
- The removal of superfluous additions and deletions, and of links to missing parent records, at the end of `RunConsistencyCheck`: they change the replay of malformed versions on purpose.
- FlatWalks.Scan.ProcessListFast: threads; a task runs as a whole, at any time. The flag an entry gets for an administration folder inside it is not modelled.
- FlatWalks.GetEntryList: scanning the administration folder itself, where the program falls back to its slow scanner.
- Duplicates.MergeCommutes: replays that failed before the merge; nothing is claimed of them after it.
- Streams.RoundTrip: whether memories that differ within the last 64 bytes do make some block fail; the bound is shown to suffice only.
- Regular expressions and letter case in the ignore rules: the rules are arbitrary functions of the path.
- The fallback scanner `PopulateList`, and the Windows scanner, whose source is not part of this model.
- Messages, encodings and byte order marks of the line-ending commands.
- Status, merging, branches, networking, user interface and the other command classes.
