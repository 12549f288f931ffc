# Verification model of the download engine

The model covers the BitTorrent engine and two smaller parts of the repository:

* `Sha1Spec`, `Sha1`, `Sha1Example`: the SHA-1 engine against FIPS 180-4. The context, its block buffer and its two-word counter are updated in place as in `sha1.c`.
* `Bencode`, `BencodeDecoder`, `BencodeProofs`, `GetDictLength`: the recursive decoder over a shared, shrinking string, and the flat scanner that measures a dictionary without decoding it. The encoder of BEP 3 is the specification.
* `Network`, `PeerWire`: message encoders and the framing loop.
* `TorrentFile`: piece and slice geometry, with `int32_t` conversions written out.
* `BitField`: the packed bit field as a set of indices.
* `BitMemory`, `PieceAssembly`: slices copied into 512 KiB blocks, counted down, hashed, written out and recorded.
* `StableSort`, `NeedPiece`, `LockBits`: the rarest-first queue and its lock bits.
* `PeerTables`, `LocalBitField`, `SwarmRuns`, `StatusBits`: the three tables of peers, what every run of their methods keeps when calls do not overlap, and what the status bits say after it.
* `TableParts`: the same methods taken apart where they give up one lock before they take the next, and what every interleaving of the parts keeps.
* `Engine`, `SingleReader`, `WriteLock`, `DownloadSafety`, `EngineRuns`, `ReadBit`, `EngineExamples`: the event loop and any number of `DPiece` workers beside it as a transition system. What happens to the tables under one lock is one step, so the parts of table methods interleave freely; a worker's program counter says where in `DPiece` it stands. `Write`, which holds no lock for most of its body, is ten stages with a step from each to the next: anything may happen between its check, copy, countdown, hash, `_Write`, `FillBitField` and `ClearIndex`.
* `SoloWrite`, `SoloWorker`, `SoloPiece`: these stages, undisturbed, are the `Write` of `BitMemory`; how a worker ends; and a whole piece through one worker.
* `WholeDownload`: a torrent that lists the hashes of its own pieces, and what becomes of its file when all their slices arrive.
* `LoadLocalFile`: the bits a download starts with.
* `Checksum`: the Internet checksum of RFC 1071.
* `CacheRegio`: the buffered stream reader of the HTTP client.

Classes have the fields of the source's objects. Each method is proved against a function of the old state, and the main results are lemmas about those functions over all inputs and all runs.

The code and its promises differ in these places; the model follows the code:

* A string length such as `-3` in `l-3:e` wraps and nothing is erased, so that a container's loop does not end. `NextHangsIff` says exactly when.
* The dictionary scanner returns -1 for a dictionary that holds an empty string anywhere (`EmptyStringIsNotMeasured`).
* The checksum is right exactly while the accumulator does not wrap. Up to 131074 bytes it cannot.
* `PopNeed` overwrites a status of 0x02 alone, so that an index which was never handed out can get two holders. `ReadBitIsExact` says that the read bit is exactly what prevents it.
* `SendReq` asks for 16384 bytes of slice 0 of any piece; of a shorter last piece `DPiece` accepts only what there is (`AcceptsWhatIsRequested`).
* With two holders the file can end up with bytes that nobody hashed, under a bit that is set, and the count can fall below 0 (`UnhashedBytesAreStored`). On runs that respect the read bit neither happens (`EveryGuardedRunIsSafe`).
* `LoadLocalFile` hashes what its buffer still holds when there is nothing to read for a piece, so that it may set the bit of a piece that is not there (`ZeroPieceWithoutFile`; `LoadsWhatIsThere` says exactly when).
* A piece of one slice is stored, and then its peer is closed, because `_LockPiece` returns 0 when there is nothing left to receive (`PieceThroughWorker`). A message of a wrong length leaves the receive flag set (`WorkerEnds`). Both lemmas are equivalences.
* `DPiece` accepts slices that lie outside the piece (`AcceptedOutside`). `AcceptedInside` says exactly when one does not.
* `Sha1` takes a `size_t` but hashes only as many bytes as its low 32 bits say.
* `LeftSize` takes a short last piece for a full one (`LeftBytes`).
* A second `SetParameter` on a piece message appends its slice to the old one (`SetTwice`; `BuildPiece` says exactly when the message is right).
* A turn of the framing loop for ids 0 to 3 leaves any extra payload in the stream (`InStepWithPrefix`).
* Slices add up to a piece only if the piece length is a multiple of the slice size or the piece is the last (`SlicesSumToPiece`).
* Adding a socket twice (`AddTwiceDisagrees`), or closing it between the parts of `AddSocket` (`OverlapAgreesIff`), takes the tables apart; adding one that a worker still uses gives it two readers (`ReusedSocketIsReadTwice`). These lemmas are equivalences.

To verify the project: `dafny verify dfyconfig.toml`.

## Model

| member | source | states |
|---|---|---|
| Sha1.HashInPieces | BitTorrent/sha1.c:201-257 | for every message below 2^61 bytes and every division of it into SHA1Update calls in which j + len does not wrap, empty ones included, SHA1Final returns the FIPS 180-4 digest of the whole message |
| Sha1.Sha1 | BitTorrent/sha1.c:124-130 | the one-call entry point returns the FIPS 180-4 digest of any buffer below 2^32 bytes, and of a longer one that of its first len mod 2^32 bytes |
| Sha1Example.AbcDigest | BitTorrent/sha1.c:124-130 | the digest of "abc" is A9993E36 4706816A BA3E2571 7850C26C 9CD0D89D, the example of FIPS 180-4, derived word by word and round by round |
| Sha1Example.AbcSchedule | BitTorrent/sha1.c:98-99 | its 80 schedule words |
| Sha1Example.AbcRounds | BitTorrent/sha1.c:102-106 | its working variables after 80 rounds |
| Sha1.Context.Init | BitTorrent/sha1.c:187-196 | a new context has absorbed nothing: FIPS 180-4 section 5.3.1 state, counters 0 |
| Sha1.Context.Update | BitTorrent/sha1.c:201-225 | unless j + len wraps, the bytes absorbed grow by exactly the data; state is the fold of the compression over all complete blocks, the buffer holds the tail, the counters hold 8 times the length mod 2^64 |
| Sha1.NextBlockFits | BitTorrent/sha1.c:212-217 | unless j + len wraps, i + 63 does not wrap either |
| Sha1.Context.TakeBlocks | BitTorrent/sha1.c:212-219 | completing the buffered block and taking whole blocks from the data absorbs data[..i], and less than a block is left |
| Sha1.CountAdvances | BitTorrent/sha1.c:210-211 | the two-word counter with its carry test adds 8 times len modulo 2^64 |
| Sha1.CountTail | BitTorrent/sha1.c:209 | the buffer position read from the low word is the number of absorbed bytes mod 64 |
| Sha1.Context.FinalCount | BitTorrent/sha1.c:235-238 | the eight bytes taken from the two words are the 64-bit big-endian bit length of FIPS 180-4 section 5.1.1 |
| Sha1.Context.PadToLength | BitTorrent/sha1.c:240-242 | the loop on the low count word stops after exactly the zero bytes that section 5.1.1 asks for |
| Sha1.PaddingStops | BitTorrent/sha1.c:240-242 | the loop test is false for the first time at PadZeros(n) zero bytes |
| Sha1.Context.AppendPadding | BitTorrent/sha1.c:235-243 | what is absorbed is the padded message of section 5.1.1 |
| Sha1Spec.PadWholeBlocks | BitTorrent/sha1.c:239-243 | the padded message is a whole number of 64-byte blocks |
| Sha1Spec.PadZeros | BitTorrent/sha1.c:240-242 | at most 63 zero bytes bring the length to 56 mod 64 |
| Sha1.Context.Final | BitTorrent/sha1.c:230-257 | the digest of everything absorbed, however it was divided |
| Sha1.DigestBytes | BitTorrent/sha1.c:244-247 | the 20 bytes are the five state words, big-endian |
| Sha1.Transform | BitTorrent/sha1.c:132-182 | the unrolled compression of one block refines section 6.1.2 of FIPS 180-4 |
| Sha1.EightyRounds | BitTorrent/sha1.c:153-173 | the 80 rounds with rotating register names are 80 steps of section 6.1.2 |
| Sha1.FiveRounds | BitTorrent/sha1.c:102-106 | five renamed rounds are five shifting steps, after which every register has its name back |
| Sha1.RoundsFive | BitTorrent/sha1.c:153-173 | five steps of section 6.1.2, taken one by one with the registers renamed, make Rounds(t + 5) |
| Sha1.Round | BitTorrent/sha1.c:102-106 | one R macro is one step of section 6.1.2 on the renamed registers |
| Sha1.Blk | BitTorrent/sha1.c:93-99 | blk0 and blk return schedule word i and keep the last 16 schedule words in the circular block |
| Sha1.ScheduleRecurrence | BitTorrent/sha1.c:98-99 | the four circular slots blk reads hold W(t-3), W(t-8), W(t-14) and W(t-16) |
| Sha1.CircularStep | BitTorrent/sha1.c:98-99 | overwriting slot t mod 16 with W(t) keeps the circular block in step |
| Sha1.ByteSwapIsBigEndian | BitTorrent/sha1.c:93-94 | the two masked rotations of a host word are the big-endian word |
| Sha1.BlkMixIsMix | BitTorrent/sha1.c:98-99 | the exclusive-or of blk, in its order, rotated by shifts, is the schedule of section 6.1.2 |
| Sha1.MacroChIsCh | BitTorrent/sha1.c:102-103 | ((w&(x^y))^y) is Ch of section 4.1.1 |
| Sha1.MacroParityIsParity | BitTorrent/sha1.c:104-106 | (w^x^y) of R2 and R4 is Parity of section 4.1.1 |
| Sha1.MacroMajIsMaj | BitTorrent/sha1.c:105 | the and-or form of R3 is Maj of section 4.1.1 |
| Sha1.MacroSumIsSum | BitTorrent/sha1.c:102-106 | the sum in the order of the macros is the sum of section 6.1.2 |
| Sha1.AbsorbBlock | BitTorrent/sha1.c:214-217 | compressing one more block is absorbing one more block |
| Checksum.InCksum | Ping/CszCheckSum.cpp:6-33 | the answer is the RFC 1071 checksum exactly when the 16-bit words add up below 2^32, for every buffer |
| Checksum.NoWrapUpTo131074 | Ping/CszCheckSum.cpp:15-25 | no buffer of up to 131074 bytes can wrap the accumulator |
| Checksum.BoundIsSharp | Ping/CszCheckSum.cpp:15-25 | a buffer of 131076 bytes wraps it |
| Checksum.TwoFoldsSuffice | Ping/CszCheckSum.cpp:26-31 | two folds bring any 32-bit sum to its 16-bit one's-complement value |
| Checksum.WrappedNeverAgrees | Ping/CszCheckSum.cpp:15-31 | a wrapped accumulator never gives the right answer |
| Checksum.OnesSumReduces | Ping/CszCheckSum.cpp:12-14 | end-around-carry addition of RFC 1071 section 1 is the plain sum reduced mod 65535 |
| Checksum.StoredChecksumSumsToZero | Ping/CszSendV4.cpp:20-22 | stored into the zeroed aligned word, the checksum makes a second pass return 0 |
| Checksum.WordOrderIrrelevant | Ping/CszCheckSum.cpp:15-19 | permuting whole words does not change the answer |
| Checksum.ByteOrderIrrelevant | Ping/CszCheckSum.cpp:15-19 | swapping the bytes of every word swaps the bytes of the answer (RFC 1071 section 2) |
| Checksum.OddIsPadded | Ping/CszCheckSum.cpp:21-25 | a last odd byte counts as if a zero byte followed it (RFC 1071 section 1) |
| Checksum.Rfc1071Example | Ping/CszCheckSum.cpp:12-31 | the example of RFC 1071 section 3: the checksum of 00 01 F2 03 F4 F5 F6 F7 is sent as 22 0D |
| CacheRegio.Cache.AddCache | Web/CszCacheRegio.cpp:72-94 | buffered plus unread bytes stay the same; 0 only at the end of the stream |
| CacheRegio.Cache.ReadLine | Web/CszCacheRegio.cpp:96-125 | the line is what the flat stream has up to a newline, CACHESIZE bytes or its end, whatever pieces it arrived in; the newline is consumed |
| CacheRegio.Cache.ReadBuf | Web/CszCacheRegio.cpp:128-142 | on a stream that has n bytes it returns exactly the next n, and terminates |
| CacheRegio.Cache.ReadBufFor | Web/CszCacheRegio.cpp:132-140 | on a stream that ends before n bytes the loop is not done after any number of turns; what it has by then is a prefix of the stream |
| CacheRegio.LineEnd | Web/CszCacheRegio.cpp:100-123 | where a line ends: the first newline, or CACHESIZE, or the end of the stream, with no newline before it |
| CacheRegio.LineExamples | Web/CszCacheRegio.cpp:100-123 | a newline is byte 10, and a line without one is cut at 1024 bytes |
| CacheRegio.Session | Web/CszCacheRegio.cpp:96-142 | any interleaving of ReadLine and ReadBuf returns what the same calls return on the unchunked stream |
| BencodeProofs.DecodeUndoesEncode | BitTorrent/CszBDict.cpp:24-109 | decoding the BEP 3 encoding of any nested value followed by any suffix gives the value and leaves exactly the suffix; of equal keys the first is kept |
| BencodeProofs.ItemsUndoEncode | BitTorrent/CszBList.cpp:24-102 | the same for the items of a list |
| BencodeProofs.PairsUndoEncode | BitTorrent/CszBDict.cpp:37-107 | the same for the entries of a dictionary |
| BencodeProofs.StrRoundTrip | BitTorrent/CszBStr.cpp:19-59 | the same for a string with its length prefix |
| BencodeProofs.IntRoundTrip | BitTorrent/CszBInt.cpp:19-59 | the same for a non-negative integer below 2^64 |
| BencodeProofs.DistinctKeysAllKept | BitTorrent/CszBDict.cpp:95-106 | with distinct keys the decoded map has every pair and no other |
| BencodeProofs.FirstIsKept | BitTorrent/CszBDict.cpp:95-106 | the decoded map has every key of the text, and of equal keys the value of the first |
| BencodeProofs.EncodingIsUnambiguous | BitTorrent/CszBDict.cpp:24-109 | no encoding is a prefix of another with a different meaning |
| BencodeProofs.StrProgress | BitTorrent/CszBStr.cpp:29-59 | a decoded string shortens the input if and only if its length does not cancel to 2^64 |
| BencodeProofs.NextHangsIff | BitTorrent/CszBDict.cpp:37-107 | the recursive decoder runs for ever if and only if it comes to a list item or a key whose length cancels; otherwise it leaves a shorter suffix, unless the value itself is such a string |
| BencodeProofs.NextTerminates | BitTorrent/CszBDict.cpp:37-107 | a test that needs no decoding: with no cancelling length at any position it terminates and shortens a non-empty input |
| BencodeProofs.EntriesHangIff | BitTorrent/CszBDict.cpp:37-107 | the loop over dictionary entries runs for ever if and only if it comes to such a length, as a key or inside a value |
| BencodeProofs.ItemsHangIff | BitTorrent/CszBList.cpp:37-102 | so does the loop over list items, as an item or inside one |
| BencodeProofs.PayloadMayCancel | BitTorrent/CszBStr.cpp:35-58 | the same characters inside a string are harmless: l4:a-3:e decodes |
| BencodeProofs.HangExample | BitTorrent/CszBStr.cpp:38 | l-3:e and d-3:e are decoded for ever |
| BencodeDecoder.StoulOfDecimal | BitTorrent/CszBInt.cpp:37-40 | stoul reads back the decimal numeral of every number below 2^64 |
| BencodeDecoder.StoulReads | BitTorrent/CszBStr.cpp:38 | stoul reads any space, a sign or none and the whole run of digits, whatever follows; a minus sign negates modulo 2^64, and from 2^64 on it is out of range |
| BencodeDecoder.StoulNeedsDigit | BitTorrent/CszBStr.cpp:38 | without a digit there it is no number |
| BencodeDecoder.BDictDecode | BitTorrent/CszBDict.cpp:24-109 | the loop erases the front of the shared string and emplaces entries exactly as DecodeEntries |
| BencodeDecoder.BListDecode | BitTorrent/CszBList.cpp:24-102 | the loop erases the front of the shared string and appends items exactly as DecodeItems |
| BencodeDecoder.BStrDecode | BitTorrent/CszBStr.cpp:19-59 | assigns the string and erases the prefix modulo 2^64 exactly as DecodeStr |
| BencodeDecoder.BIntDecode | BitTorrent/CszBInt.cpp:19-59 | assigns the number and erases up to the e exactly as DecodeInt |
| GetDictLength.Run | BitTorrent/CszGetDictLength.cpp:6-59 | the pointer loop computes the recursive scan, with its token budget and its -1 |
| GetDictLength.ReadRun | BitTorrent/CszGetDictLength.cpp:30-46 | the inner loops stop at the end of the digits with their value |
| GetDictLength.ScannerMeasuresDict | BitTorrent/CszGetDictLength.cpp:16-58 | on an encoded dictionary followed by anything the scanner returns its exact length if it holds no empty string, and -1 otherwise |
| GetDictLength.ScannerAgreesWithDecoder | BitTorrent/CszGetDictLength.cpp:16-58 | it is the number of bytes BDict::Decode consumes |
| GetDictLength.EmptyStringIsNotMeasured | BitTorrent/CszGetDictLength.cpp:47-50 | d1:a0:e decodes, and the scanner returns -1 for it |
| GetDictLength.TokensWithinBytes | BitTorrent/CszGetDictLength.cpp:18 | the token budget T_len cannot run out first |
| GetDictLength.EndIsRefused | BitTorrent/CszGetDictLength.cpp:47-50 | a text that ends inside the dictionary is refused |
| GetDictLength.ScanCrosses | BitTorrent/CszGetDictLength.cpp:20-56 | the scanner crosses any encoded value in one stretch and comes out at the same depth |
| TorrentFile.PiecesSumToTotal | BitTorrent/CszTorrentFile.cpp:299-353 | the piece lengths add up to the torrent |
| TorrentFile.GetPieceLength | BitTorrent/CszTorrentFile.cpp:299-353 | a full piece, or what the last one leaves; 0 for a negative index |
| TorrentFile.GetIndexEndLength | BitTorrent/CszTorrentFile.cpp:436-454 | the size of the last piece |
| TorrentFile.LastPieceSize | BitTorrent/CszTorrentFile.cpp:321-350 | only the last piece may be short, and no piece is empty |
| TorrentFile.GetFileTotal | BitTorrent/CszTorrentFile.cpp:164-182 | the sum of the file lengths |
| TorrentFile.WholePieceRange | BitTorrent/CszTorrentFile.cpp:213-243 | the range of a whole piece of a single-file torrent is its offset and size, without 32-bit overflow |
| TorrentFile.WholePiecesTile | BitTorrent/CszTorrentFile.cpp:226-243 | every byte of the file lies in the range of exactly one piece |
| TorrentFile.SliceRange | BitTorrent/CszTorrentFile.cpp:213-243 | a slice has its own range in the file, but in the last piece the range is the whole piece whatever slice is asked for |
| TorrentFile.Int32Wraps | BitTorrent/CszTorrentFile.cpp:299-353 | the conversion to int32_t wraps |
| TorrentFile.SliceRequests | BitTorrent/CszSelectSwitch.cpp:565-583 | DPiece asks for slices 1 to size - 1, the last one short on the last piece |
| TorrentFile.SlicesAreStretches | BitTorrent/CszTorrentFile.cpp:355-426 | the slices DPiece accepts are exactly the successive stretches of the piece |
| TorrentFile.AcceptsSlices | BitTorrent/CszTorrentFile.cpp:386-426 | at the begin of a slice DPiece accepts its length, and no other |
| TorrentFile.AcceptsWhatIsRequested | BitTorrent/CszNeedPiece.cpp:565-566 | what SendReq (slice 0) and DPiece (the others) request is what DPiece accepts, if and only if it is not slice 0 of a last piece shorter than SLICESIZE |
| TorrentFile.FirstRequestRefused | BitTorrent/CszTorrentFile.cpp:399-404 | in a torrent of 32868 bytes with pieces of 32768, SendReq asks for 16384 bytes of the last piece and DPiece accepts only 100 |
| TorrentFile.AcceptedInside | BitTorrent/CszSelectSwitch.cpp:502-512 | an accepted slice lies inside its piece exactly for begins below the size of the last piece, or at most pieceLength - SLICESIZE in any other |
| TorrentFile.AcceptedOutside | BitTorrent/CszTorrentFile.cpp:386-426 | with pieces of 32768 bytes DPiece accepts 16384 bytes for the first one at begin -16384, 20000 and 32768 |
| TorrentFile.SlicesSumToPiece | BitTorrent/CszTorrentFile.cpp:355-384 | the slices add up to the piece, and not before the last, if and only if the piece divides into slices or is the last |
| TorrentFile.SlicesOvershoot | BitTorrent/CszTorrentFile.cpp:355-384 | with pieces of 20000 bytes the slices of the first come to 32768 |
| BitField.BitField.FillBitField | BitTorrent/CszBitField.cpp:76-142 | adds exactly the index to the set of pieces and counts it once; at a spare bit the set stays and the count becomes wrong |
| BitField.BitField.CheckPiece | BitTorrent/CszBitField.cpp:144-210 | membership in the set for any index inside the field or one byte behind it; a negative index comes back as found and -1; further out any byte may be read, and an index reported missing is missing |
| BitField.BitField.FieldIsReadable | BitTorrent/CszBitField.cpp:144-210 | every index of the field can be checked, and so can the eight behind it |
| BitField.BitField.CheckBitField | BitTorrent/CszLocalBitField.cpp:6-15 | membership for the same indices, false for a negative one |
| BitField.BitField.LackNeedPiece | BitTorrent/CszBitField.cpp:212-263 | the missing indices, or nothing when the fields differ in size |
| BitField.LackingIsDifference | BitTorrent/CszBitField.cpp:212-263 | they are the peer's set minus the local set, in ascending order, spare bits ignored |
| BitField.BitField.GameOver | BitTorrent/CszBitField.cpp:265-283 | true exactly when every index is present |
| BitField.BitField.FullWhenCounted | BitTorrent/CszBitField.cpp:276-279 | cur_sum equals total exactly when the set is full |
| BitField.WithBitIndices | BitTorrent/CszBitField.cpp:118-135 | setting one bit, high bit first as in BEP 3, adds one index |
| BitField.OrSetsOneBit | BitTorrent/CszBitField.cpp:76-142 | or with bit_hex sets one bit of a byte and keeps the other seven |
| BitField.ByteOfIndices | BitTorrent/CszBitField.cpp:7 | the value of every byte of a field is 128 for its lowest index, 64 for the next, and so on down to 1: high bit first, as in BEP 3 |
| BitField.BitField.SetParameter | BitTorrent/CszBitField.cpp:11-64 | appends any field behind a big-endian length prefix and leaves cur_sum alone: on a new object the count is right if and only if the field is all zero |
| BitField.LeftCounts | BitTorrent/CszBitField.cpp:336-348 | LeftSize does not underflow, and is 0 only when everything is counted |
| BitField.DownLoadCounts | BitTorrent/CszBitField.cpp:336-341 | DownLoad counts every piece as a full one until all are there, and with LeftSize makes up the torrent |
| BitField.BitField.GameEndMeans | BitTorrent/CszBitTorrent.h:564-575 | the end of the game is near when at most one piece in a hundred is missing |
| BitField.LeftBytes | BitTorrent/CszBitField.cpp:336-348 | it is the number of missing bytes if and only if all pieces are there, or the last is not, or the last is a full one |
| BitField.LeftBytesFails | BitTorrent/CszBitField.cpp:336-348 | with only the short last piece of 100 bytes there, 32768 bytes are missing and LeftSize is 100 |
| BitField.BitField.LeftSizeZeroIffComplete | BitTorrent/CszBitField.cpp:343-348 | it is 0 exactly when every index is present |
| BitMemory.BitMemory.Write | BitTorrent/CszBitMemory.cpp:64-206 | for every slice that is turned away or lies inside the blocks of its piece, countdown, hash, file, bit and queue on blocks in memory do what Written says on flat arrays; cur_len never becomes negative |
| BitMemory.PieceBuffer.constructor | BitTorrent/CszBitMemory.cpp:73-92 | allocates enough distinct blocks for the piece, with the count at its length |
| BitMemory.BlockSizes | BitTorrent/CszBitMemory.cpp:82-92 | a block is 512 KiB, and a piece has as many as it needs |
| BitMemory.PieceBuffer.CopyIn | BitTorrent/CszBitMemory.cpp:106-119 | changes exactly [begin, begin + length) of the flat piece, across one block boundary or none |
| BitMemory.PieceBuffer.Assemble | BitTorrent/CszBitMemory.cpp:126-144 | the bytes hashed are the flat piece, for any number of blocks |
| BitMemory.JoinPatch | BitTorrent/CszBitMemory.cpp:106-119 | a copy into one block is the same copy into the concatenation of all blocks |
| BitMemory.PatchTwice | BitTorrent/CszBitMemory.cpp:110-115 | the two halves of a slice copied side by side are the slice |
| BitMemory.BitMemory.Collect | BitTorrent/CszBitMemory.cpp:96-120 | a slice longer than the count is turned away and the count restarted, any other is copied and counted |
| BitMemory.BitMemory.ClearIndex | BitTorrent/CszBitMemory.cpp:210-243 | length 0 gives the blocks back, any other length restarts the count, and no other piece changes |
| BitMemory.Verify | BitTorrent/CszBitMemory.cpp:145-154 | the comparison succeeds exactly when the flat piece has the listed SHA-1 |
| BitMemory.HashedIsListed | BitTorrent/CszTorrentFile.cpp:151-162 | a piece whose hash is found has an index in the torrent |
| WholeDownload.GetHashAt | BitTorrent/CszTorrentFile.cpp:151-162 | the hash of an index is the one with 20 * index bytes before it |
| WholeDownload.HashesOwnPiece | BitTorrent/CszBitMemory.cpp:145-154 | in a torrent that lists the digests of its own pieces in order, the hash test accepts for piece i exactly what has the digest of piece i |
| WholeDownload.DownloadCompletes | BitTorrent/CszBitMemory.cpp:64-206 | a whole download: the slices of all pieces of such a torrent arrive in any order, interleaved at will; a bit is set exactly when every byte of its piece has arrived, and when all are set the file is the content of the torrent |
| WholeDownload.SliceWritten | BitTorrent/CszBitMemory.cpp:96-168 | one more slice of a piece completes that piece if it was the last one missing, and changes nothing of any other piece |
| BitMemory.WriteOut | BitTorrent/CszBitMemory.cpp:245-314 | the full length comes back only if the piece is in its range of the file; nothing outside that range changes |
| BitMemory.Finish | BitTorrent/CszBitMemory.cpp:145-168 | hash, write out, and either record the piece or restart its count |
| BitMemory.RecordPiece | BitTorrent/CszBitMemory.cpp:158-163 | a stored piece loses its blocks, gets its bit, and leaves the queue |
| PieceAssembly.CountdownIsCoverage | BitTorrent/CszBitMemory.cpp:120-123 | for disjoint slices inside the piece the count stays in [0, T_LEN] and is 0 exactly when every byte is covered |
| PieceAssembly.FilledIsPiece | BitTorrent/CszBitMemory.cpp:106-123 | when it is 0 memory holds exactly the piece, whatever order the slices came in and whatever the blocks held |
| PieceAssembly.PieceArrives | BitTorrent/CszBitMemory.cpp:120-168 | after all its slices a piece, new or restarted, is in the file with its bit set if its hash is the listed one; otherwise only its count restarts, and the next attempt starts like this one |
| PieceAssembly.SlicesComplete | BitTorrent/CszTorrentFile.cpp:355-426 | the slices DPiece accepts are disjoint and cover the piece |
| PieceAssembly.ApartPrefix | BitTorrent/CszBitMemory.cpp:106-123 | each further slice lowers the count by its length, and what came before it fits as well |
| NeedPiece.PopTakesRarest | BitTorrent/CszNeedPiece.cpp:67-157 | PopNeed takes an entry with the fewest sources among those eligible with an unchoked source, returns exactly its unchoked sockets in order, and the list stays a permutation with only that entry changed |
| NeedPiece.PopFindsIfAny | BitTorrent/CszNeedPiece.cpp:75-157 | it finds one exactly when there is one |
| NeedPiece.HandedOutAgain | BitTorrent/CszNeedPiece.cpp:92-109 | a queued index that was handed out at t is handed out again at t2 exactly if the end of the game is near or t2 - t >= 120; not at all after SetIndexW, and at once after UnLockIndex |
| NeedPiece.NotHandedOutEarly | BitTorrent/CszNeedPiece.cpp:92-109 | however many are queued, it is not handed out before that |
| NeedPiece.UnchokedMembers | BitTorrent/CszNeedPiece.cpp:113-139 | the sockets are those whose queued id is known and does not choke us |
| NeedPiece.PopKeepsUnique | BitTorrent/CszNeedPiece.cpp:67-157 | PopNeed keeps one entry per index |
| NeedPiece.PushKeepsUnique | BitTorrent/CszNeedPiece.cpp:9-46 | PushNeed keeps one entry per index |
| NeedPiece.LocksKeepUnique | BitTorrent/CszNeedPiece.cpp:521-643 | SetIndexW and UnLockIndex keep one entry per index |
| NeedPiece.ClearRemoves | BitTorrent/CszNeedPiece.cpp:486-519 | ClearIndex removes the index and nothing else |
| NeedPiece.NeedPiece.PopNeed | BitTorrent/CszNeedPiece.cpp:67-157 | the sort, the search and the collecting loop compute Pop |
| NeedPiece.NeedPiece.PushNeed | BitTorrent/CszNeedPiece.cpp:9-46 | a source is appended to the entry of the index, or to a new unlocked one |
| NeedPiece.NeedPiece.PushNeeds | BitTorrent/CszNeedPiece.cpp:48-65 | the same for every index of a list |
| NeedPiece.NeedPiece.SetIndexW | BitTorrent/CszNeedPiece.cpp:603-643 | sets the write bit of a queued index that lacks it, and says so |
| NeedPiece.NeedPiece.UnLockIndex | BitTorrent/CszNeedPiece.cpp:521-554 | clears both bits of a queued index |
| NeedPiece.NeedPiece.ClearIndex | BitTorrent/CszNeedPiece.cpp:486-519 | erases the entry of the index |
| NeedPiece.NeedPiece.SocketMapId | BitTorrent/CszNeedPiece.cpp:257-272 | a new id gets the initial status, a known one keeps its own |
| NeedPiece.NeedPiece.ClearSocket | BitTorrent/CszNeedPiece.cpp:274-298 | the id is forgotten, the queued pairs stay |
| NeedPiece.NeedPiece.SetStatus | BitTorrent/CszNeedPiece.cpp:300-464 | one bit of one id changes, if the id is known |
| StableSort.SortSorts | BitTorrent/CszMicro.hpp:5-29 | list::sort by a strict part of a total preorder leaves the list sorted |
| StableSort.SortIsStable | BitTorrent/CszNeedPiece.cpp:80-81 | items that tie keep their order |
| LockBits.SetWLocks | BitTorrent/CszNeedPiece.cpp:603-643 | SetIndexW succeeds exactly on a queued index without the write bit, and changes that bit only |
| LockBits.PopLocks | BitTorrent/CszNeedPiece.cpp:92-143 | PopNeed never picks an index with both bits, and leaves the one it picks read-locked, even one that was write-locked alone |
| LockBits.PushLocks | BitTorrent/CszNeedPiece.cpp:9-46 | an index is added unlocked, and only if it was not queued |
| LockBits.UnLockLocks | BitTorrent/CszNeedPiece.cpp:521-554 | UnLockIndex clears both bits of that index and of no other |
| LockBits.ClearLocks | BitTorrent/CszNeedPiece.cpp:486-519 | ClearIndex takes out that index and no other |
| PeerTables.PeerManager.AddSocket | BitTorrent/CszPeerManager.cpp:60-97 | the peer enters all three tables, with a fresh id |
| PeerTables.PeerManager.CloseSocket | BitTorrent/CszPeerManager.cpp:371-406 | the peer leaves all three, its queued pairs stay |
| PeerTables.PeerManager.SetStatus | BitTorrent/CszPeerManager.cpp:492-741 | the Am methods return early when nothing changes; otherwise all three tables follow; PrUnChoke requests a piece |
| PeerTables.RepeatedAmIsIgnored | BitTorrent/CszPeerManager.cpp:492-527 | each of the four Am methods does nothing when the bit has its value already |
| PeerTables.UnChokeAsks | BitTorrent/CszPeerManager.cpp:663-688 | of the eight methods exactly PrUnChoke asks for a piece, every time |
| StatusBits.EveryRunBits | BitTorrent/CszPeerManager.cpp:492-741 | after every legal run, each of the four bits of an open peer is in all three tables what the last call about it has said since the peer was added; a new peer is choked both ways and nobody is interested |
| StatusBits.ChokingIsNotAsked | BitTorrent/CszPeerManager.cpp:636-661 | a peer whose last word was choke is not among the sockets PopNeed returns |
| StatusBits.StepBits | BitTorrent/CszPeerManager.cpp:492-741 | one call changes the bits it speaks of and no others |
| PeerTables.PeerManager.Optimistic | BitTorrent/CszPeerManager.cpp:743-803 | a pass unchokes the choked peer whose turn it is, counted in the order of iteration, and then closes exactly the silent or unreachable peers it came past |
| PeerTables.TurnRange | BitTorrent/CszPeerManager.cpp:755-771 | with up to five peers it is always the first choked one, with more any turn from 1 to peers - 5 can come |
| PeerTables.StaleAre | BitTorrent/CszPeerManager.cpp:782-790 | the peers closed by a pass are those silent for 30 seconds and those a keep-alive did not reach |
| PeerTables.PeerManager.CalculateSpeed | BitTorrent/CszDownSpeed.cpp:311-366 | a re-sort and then one AmUnChoke for every socket of the sorted list, in its order |
| PeerTables.PeerManager.SendRequests | BitTorrent/CszNeedPiece.cpp:556-601 | one PopNeed and ReqPiece on every socket it returns |
| PeerTables.PeerManager.RequestPiece | BitTorrent/CszPeerManager.cpp:805-844 | grants a request to an idle peer, or to one that has been silent for PEERPIECETIME |
| PeerTables.AskedAgain | BitTorrent/CszPeerManager.cpp:805-900 | a request granted at t is granted again exactly from t + 30 on, not while a piece is received, and at once after ClearPieceStatus; the socket is polled except while a piece is received |
| PeerTables.NewPeerIsAsked | BitTorrent/CszPeerManager.cpp:60-97 | the first request to a new peer is granted, and it is polled |
| PeerTables.PeerManager.RecvPiece | BitTorrent/CszPeerManager.cpp:846-873 | succeeds exactly for an open socket whose flag is clear, and sets the flag and nothing else |
| PeerTables.PeerManager.ClearPieceStatus | BitTorrent/CszPeerManager.cpp:875-899 | clears the two piece flags of that socket |
| PeerTables.PeerManager.RecvNeeds | BitTorrent/CszLocalBitField.cpp:24-37 | AmInterested and a push under the id the socket has now, unless it is gone |
| LocalBitField.LocalBitField.RecvHave | BitTorrent/CszLocalBitField.cpp:17-40 | for any index a peer sends: AmInterested and a push exactly if we lack it, where the byte looked at is inside the field or its terminating NUL; in no case is an index pushed that we have |
| LocalBitField.LocalBitField.RecvBitField | BitTorrent/CszLocalBitField.cpp:42-66 | AmInterested and a push of exactly the indices that the peer has and we lack, if there are any |
| PeerTables.DownSpeed.Resort | BitTorrent/CszDownSpeed.cpp:322-351 | the list is permuted into an order that DSComp sorts, every total is 0, and the result lists its sockets in that order |
| PeerTables.FastestFirst | BitTorrent/CszDownSpeed.cpp:312-322 | interested peers come first, among those alike in this the ones with more bytes, and peers alike in both keep their order |
| PeerTables.DownSpeed.ClearSocket | BitTorrent/CszDownSpeed.cpp:100-126 | the first entry of the socket goes |
| PeerTables.DownSpeed.SetStatus | BitTorrent/CszDownSpeed.cpp:128-309 | one bit of the socket's entry changes |
| SwarmRuns.EveryRunKeeps | BitTorrent/CszPeerManager.cpp:492-803 | after every run of completed calls that do not overlap, AddSocket on absent sockets only, the three tables hold the same peers and agree on their four choke and interest bits, and every queued pair is safe |
| SwarmRuns.StepKeeps | BitTorrent/CszPeerManager.cpp:492-803 | each single call keeps that |
| SwarmRuns.PoppedSocketsAreLive | BitTorrent/CszNeedPiece.cpp:113-139 | after every such run, with sockets closed and reused at will, a socket PopNeed returns is open, was queued for the index that is returned under the id it carries now, and does not choke us |
| SwarmRuns.AddTwiceDisagrees | BitTorrent/CszPeerManager.cpp:80-88 | AddSocket keeps the tables in agreement if and only if the socket is not in them |
| SwarmRuns.ChangeKeeps | BitTorrent/CszPeerManager.cpp:492-741 | a status method keeps agreement, early returns and SendReq included |
| SwarmRuns.CloseKeeps | BitTorrent/CszPeerManager.cpp:382-395 | closing keeps agreement, and makes no queued pair refer to another peer |
| TableParts.StepIsParts | BitTorrent/CszPeerManager.cpp:60-97 | a call that nothing overlaps is the parts it does under PeerManager, NeedPiece and DownSpeed locks one after the other |
| TableParts.OverlapDisagrees | BitTorrent/CszPeerManager.cpp:80-88 | a CloseSocket between the parts of AddSocket on the same socket leaves its speed entry and its id behind |
| TableParts.OverlapAgreesIff | BitTorrent/CszPeerManager.cpp:382-395 | with a whole CloseSocket after the first part of an AddSocket the tables agree in the end if and only if the sockets differ |
| TableParts.EveryInterleavingKeeps | BitTorrent/CszPeerManager.cpp:80-95 | however the parts of any calls interleave, ids are given out once, no pair that was ever got from GetSocketId and no queued pair names an open peer other than its own, and an index is queued once |
| TableParts.PairIsSafe | BitTorrent/CszPeerManager.cpp:473-490 | a (socket, id) pair got from GetSocketId names no other open peer |
| TableParts.PairStaysSafe | BitTorrent/CszPeerManager.cpp:80-88 | and never will, whatever is added or closed before it is pushed |
| TableParts.PoppedNamesNoOther | BitTorrent/CszNeedPiece.cpp:113-139 | however they interleave, a socket PopNeed returns was queued for that index under a known id that does not choke us, and no other open peer has that id |
| PeerWire.WireRoundTrip | BitTorrent/CszSelectSwitch.cpp:79-222 | the encodings of any sequence of messages come out of the framing loop as the same ids and payloads, interpreted as the same messages, with no byte left |
| PeerWire.FrameRoundTrip | BitTorrent/CszSelectSwitch.cpp:82-171 | one message and any following bytes: the frame and exactly those bytes |
| PeerWire.FieldsRoundTrip | BitTorrent/CszSelectSwitch.cpp:496-498 | big-endian extraction of index, begin and length inverts SetParameter, and the slice is whole |
| PeerWire.FieldsAreRead | BitTorrent/CszSelectSwitch.cpp:318-440 | fields are read wherever the payload is long enough, and what is behind them is ignored |
| PeerWire.InStepWithPrefix | BitTorrent/CszSelectSwitch.cpp:104-168 | a turn consumes exactly the bytes its prefix announces if and only if the message is not one of ids 0 to 3 with extra payload |
| PeerWire.OutOfStep | BitTorrent/CszSelectSwitch.cpp:129-148 | a choke message that announces one byte of payload leaves that byte in the stream |
| PeerWire.BuildKeepAlive | BitTorrent/CszBitTorrent.h:350-360 | the keep-alive is four zero bytes |
| PeerWire.BuildPlain | BitTorrent/CszBitTorrent.h:363-472 | the constructors of the four messages with an id and no payload write their BEP 3 bytes |
| PeerWire.BuildHave | BitTorrent/CszBitTorrent.h:475-503 | the have message is its BEP 3 bytes |
| LocalBitField.BuildBitField | BitTorrent/CszBitField.cpp:10-74 | a new field is its BEP 3 bitfield message, prefix and id included |
| PeerWire.BuildPort | BitTorrent/CszBitTorrent.h:697-725 | the port message is its BEP 3 bytes |
| PeerWire.BuildRequest | BitTorrent/CszBitTorrent.h:611-636 | the request message is its BEP 3 bytes, whatever was set before |
| PeerWire.BuildCancle | BitTorrent/CszBitTorrent.h:670-694 | so is the cancel message |
| PeerWire.ReqCleBase.SetParameter | BitTorrent/CszReqCleBase.cpp:5-18 | bytes 5 to 16 become the three words, the others stay |
| PeerWire.PieceMessage.SetParameter | BitTorrent/CszPiece.cpp:5-51 | the message is that of the new index and begin with the slice behind all slices set before, and nothing changes for a negative index or begin or an empty slice |
| PeerWire.BuildPiece | BitTorrent/CszPiece.cpp:5-51 | it is the message of the slice alone if and only if no slice was set before |
| PeerWire.AloneIffFirst | BitTorrent/CszPiece.cpp:28-50 | the message of a slice behind others is that of the slice alone if and only if there are no others |
| PeerWire.SetTwice | BitTorrent/CszPiece.cpp:28-50 | the second of two slices of one byte is sent with the first |
| PeerWire.ReceiveFrame | BitTorrent/CszSelectSwitch.cpp:79-171 | the recv calls of one turn take the next frame off the stream, or close the socket |
| PeerWire.ReceiveAll | BitTorrent/CszSelectSwitch.cpp:79-222 | turn after turn computes Receive |
| Network.FromBytesOfToBytes | BitTorrent/CszSelectSwitch.cpp:496-497 | ntohl undoes htonl for every int32_t, negative ones included |
| EngineRuns.EveryRunHasSingleReaders | BitTorrent/CszSelectSwitch.cpp:33-206 | in every interleaving of the event loop and any number of DPiece workers at most one party may read a socket, and a socket a worker has is not polled |
| SingleReader.StepKeepsReaders | BitTorrent/CszPeerManager.cpp:46-50 | every step keeps that a worker's socket has its receive flag set, is not pending, and is no other worker's |
| SingleReader.MessageKeepsReaders | BitTorrent/CszPeerManager.cpp:846-873 | RecvPiece hands the loop's socket over to one worker |
| SingleReader.EnvKeepsFlags | BitTorrent/CszPeerManager.cpp:492-844 | no other method of the tables touches a receive flag |
| SingleReader.ReusedSocketIsReadTwice | BitTorrent/CszPeerManager.cpp:60-97 | if a descriptor is added again the next poll leads to two readers if and only if a worker still uses it |
| SoloWorker.ReusedSocketIsClosed | BitTorrent/CszSelectSwitch.cpp:589-592 | a descriptor that is added again while a worker is about to close it is closed by that worker |
| EngineExamples.SecondReader | BitTorrent/CszPeerManager.cpp:371-406 | a run that comes to such a worker: a peer sends a slice and is closed; when its descriptor is added again the loop reads what the worker reads |
| EngineRuns.EveryGuardedRunExcludes | BitTorrent/CszSelectSwitch.cpp:523-594 | on runs that take slices only for indices with the read bit, an index has at most one holder, PopNeed never hands out a held index, and a worker that lets go leaves the index unlocked or no longer queued |
| ReadBit.ReadBitIsExact | BitTorrent/CszNeedPiece.cpp:603-643 | after any such run, a worker about to take an index finds its read bit set if and only if in every such continuation the index has one holder |
| ReadBit.SecondHolder | BitTorrent/CszNeedPiece.cpp:92-143 | from any state in which a worker holds an index with the write bit alone there is a continuation with a second holder |
| ReadBit.PopShrinks | BitTorrent/CszNeedPiece.cpp:67-157 | PopNeed hands such an index out after finitely many calls, because what it hands out is not eligible again before its time |
| EngineExamples.SecondHolder | BitTorrent/CszNeedPiece.cpp:92-143 | a run from the start in which two workers hold one index |
| EngineExamples.WriteLockAloneIsLost | BitTorrent/CszNeedPiece.cpp:143 | PopNeed overwrites a status of 0x02 alone, after which SetIndexW succeeds again |
| WriteLock.StepKeepsLocks | BitTorrent/CszSelectSwitch.cpp:483-595 | every step keeps that an index whose bit is set is queued only while a worker is between FillBitField and ClearIndex on it; and, where the read bit guards taking, that a held index is doubly locked or no longer queued and has one holder |
| WriteLock.PushNeedsLack | BitTorrent/CszLocalBitField.cpp:22-37 | a push of an index that no worker is clearing keeps finished indices out of the queue if and only if the index is lacking when it is pushed |
| WriteLock.HeldIsNotPopped | BitTorrent/CszNeedPiece.cpp:92-109 | PopNeed does not pick a held index |
| WriteLock.ReleaseFreesIndex | BitTorrent/CszSelectSwitch.cpp:535-594 | on every exit of DPiece after a successful SetIndexW the index is left unlocked or is no longer queued |
| EngineRuns.EveryRunClears | BitTorrent/CszBitMemory.cpp:160-162 | in every run, guarded or not, an index whose bit is set is not queued unless a worker is between FillBitField and NeedPiece::ClearIndex on it |
| EngineRuns.EveryGuardedRunIsSafe | BitTorrent/CszBitMemory.cpp:96-168 | on runs that take slices only for indices with the read bit, with every other step anywhere between the stages of Write: a bit that is set means the file holds that piece with the torrent's hash; a slice is never copied into blocks that were given back; the count is never lowered below 0 |
| EngineExamples.UnhashedBytesAreStored | BitTorrent/CszBitMemory.cpp:97-168 | a run from the start, with two holders of one index, in which the second copies its slice between hash and _Write of the first: the bit is set, the file holds bytes nobody hashed, which have the torrent's hash only if they have the digest of the others, and cur_len is below 0 |
| EngineRuns.EveryRunKeepsBits | BitTorrent/CszBitField.cpp:76-142 | a bit that is set at any point of a run is set ever after |
| DownloadSafety.StepKeepsSafe | BitTorrent/CszBitMemory.cpp:64-206 | every step keeps finished pieces whole in the file, and keeps for each worker what its stage of Write relies on, whatever duplicate, failed or restarted slices came before |
| SoloWrite.StagesAreWritten | BitTorrent/CszBitMemory.cpp:64-206 | the stages of one call of Write, undisturbed, come to exactly what BitMemory.Write is proved to do, in every outcome |
| DownloadSafety.PatchOnDisk | BitTorrent/CszTorrentFile.cpp:226-243 | writing the range of one piece changes that piece in the file and no other |
| DownloadSafety.CopyFindsBlocks | BitTorrent/CszBitMemory.cpp:97-119 | a worker about to copy finds all blocks of its piece, and a count that covers the slice |
| Engine.OnePartStep | BitTorrent/CszSelectSwitch.cpp:19-236 | to the three tables of peers, every step of the loop and the workers does at most what one lock protects |
| Engine.WriteTouches | BitTorrent/CszBitMemory.cpp:64-206 | of all the stages of Write only NeedPiece::ClearIndex touches the tables |
| Engine.SliceCountIs | BitTorrent/CszTorrentFile.cpp:355-384 | the number of slices a worker counts down is GetPieceBit |
| SoloWorker.WorkerEnds | BitTorrent/CszSelectSwitch.cpp:483-595 | a worker that runs undisturbed ends, whatever becomes of Write; the index it took is not locked any more, and its socket is polled again or closed, if and only if DPiece accepts the length of the message |
| SoloWorker.Finishes | BitTorrent/CszSelectSwitch.cpp:535-594 | the same from a failed first Write or the end of _LockPiece on |
| SoloWorker.RefusalEnds | BitTorrent/CszSelectSwitch.cpp:523-594 | a slice that Write refuses ends the worker, and the index is given up; after the first slice the peer is kept, after a later one it is closed |
| SoloPiece.PieceThroughWorker | BitTorrent/CszSelectSwitch.cpp:483-715 | a piece that arrives through one worker, first the slice of the message and then the others in any order: it is in the file with its bit set and not queued any more, and the peer is kept and polled again if and only if the piece has more than one slice |
| SoloPiece.OneMore | BitTorrent/CszSelectSwitch.cpp:695-706 | one more slice in _LockPiece leaves one fewer to come and the piece as PieceAssembly.WriteAll has it |
| Engine.OnlyWholeSlices | BitTorrent/CszSelectSwitch.cpp:502-512 | of any index but the last, negative ones included, only slices of 16384 bytes are accepted |
| Engine.MessageHandedOver | BitTorrent/CszSelectSwitch.cpp:195-206 | the loop is done with the socket in any case; there is a new worker exactly if the receive flag was clear, and then it is set |
| LoadLocalFile.Load | BitTorrent/CszBitField.cpp:285-334 | the loop ends the program exactly if some piece can be read only in part, and otherwise adds exactly the indices of Loaded to the field |
| LoadLocalFile.WholeFile | BitTorrent/CszBitField.cpp:293-328 | with the whole file there the bits set are exactly those of the pieces that have the torrent's hash, which is a start of the runs above |
| LoadLocalFile.OwnFile | BitTorrent/CszBitField.cpp:293-328 | the finished file of a torrent loads every bit |
| LoadLocalFile.LoadsWhatIsThere | BitTorrent/CszBitField.cpp:302-328 | with any file that is not read in part, every bit set stands for a piece that is in the file with its hash if and only if no piece behind the end of the file has the hash of what the buffer still holds |
| LoadLocalFile.DownloadStarts | BitTorrent/CszBitField.cpp:285-334 | under that condition a download that starts without a file, or is resumed from a shorter one, is a start of the runs above |
| LoadLocalFile.NoFile | BitTorrent/CszBitField.cpp:302-313 | without a file the bits of exactly those pieces are set that have the hash of as many zero bytes |
| LoadLocalFile.ZeroPieceWithoutFile | BitTorrent/CszBitField.cpp:307-328 | a torrent of one zero byte is complete before there is a file |

## Left out

Of the modelled parts:

- Engine.Engine: locks are always acquired. PopNeed is one step under its index lock although it takes the id lock once for every source. RecvHave and RecvBitField are one step from the look at the bit field to the push, so a piece completed in between is not modelled; PushNeedsLack says that it would leave a finished index in the queue. In Write these are one step each: the two accesses to memory_pool at its head, copying a slice, lowering cur_len, hashing a piece, _Write, giving the blocks back, and a test that fails with the restart of the count after it.
- Engine.GoEnabled: a slice is copied only where it lies inside the blocks of its piece; DPiece checks this in part (AcceptedInside says how far) and _LockPiece not at all. Elsewhere the copy is undefined. What a copy does to blocks that were given back is undefined too; EveryGuardedRunIsSafe excludes it where the read bit guards, and elsewhere it changes nothing here.
- EngineRuns.Start: the file counts as padded with zero bytes to the size of the torrent. The runs start from any file in which every piece whose bit is set has its hash; DownloadStarts says when LoadLocalFile leads to such a start.
- LoadLocalFile.Load: one single-file torrent. A read error, which also ends the program, is left out.
- EngineRuns.EveryRunHasSingleReaders: a descriptor number is added again only after no worker uses it; ReusedSocketIsReadTwice shows the condition is exact.
- EngineRuns.EveryGuardedRunExcludes: safety only. The early returns of DPiece on a wrong length leave the receive flag set for ever, so there is no liveness claim.
- SwarmRuns.EveryRunKeeps: agreement of the three tables is claimed for completed calls that do not overlap. For overlapping calls EveryInterleavingKeeps says what remains.
- PeerTables.PeerManager.SetStatus: the eight status methods of each table are written once, with the change as an argument.
- PeerTables.PeerManager.RequestPiece: the clock is an argument; a `time_t` or id counter that wraps is not modelled.
- PeerTables.PeerManager.Optimistic: the order of the hash map, the random number and the sockets a keep-alive cannot be sent to are arguments.
- PeerTables.PeerManager.CalculateSpeed: the printed speed, and AddTotal, which only changes the totals that the sort reads, are left out.
- NeedPiece.NeedPiece.PopNeed: GameEnd and the clock are arguments; PopPointNeed is left out.
- BitMemory.BitMemory.Write: one single-file torrent with pieces of at most two blocks, because _Write handles one block boundary. A slice that is counted and lies outside the blocks is undefined. Single-file GetFileName with a begin offset on the last piece ignores the offset.
- BitMemory.WriteOut: the file is a byte sequence; a failed write leaves anything in the range.
- Sha1.Context.Update: where j + len wraps, which takes at least 2^32 - 63 bytes, the copy runs past the buffer and is undefined. The static workspace, thread safety and the wiping of the context are left out.
- BencodeDecoder.BDictDecode: decoded objects are returned values; virtual dispatch, ReadData and the callback registry are left out.
- GetDictLength.Run: `num` is unbounded here; its overflow as an `int` is undefined in C++. The string ends in a NUL.
- CacheRegio.Cache.ReadBuf: the stream has n bytes; ReadBufFor covers the stream that ends before. A hard error, which would append a negative count, and CszWebCache as a buffer size are left out.
- PeerWire.ReceiveFrame: RecvTime_us delivers whatever the peer sent, so timeouts only appear as a closed socket. Slices and fields of 2^31 bytes or more are left out.
- BitField.BitField.CheckPiece: a read beyond the string and its terminating NUL is undefined; it is taken to yield any byte. FillBitField there, a write, is not modelled.
- BitField.BitField.GameEnd: over the reals, with the rate 0.99.
- SoloWorker.WorkerEnds: of one worker that no other step disturbs; between its steps the file half and the exclusion hold as the runs say.
- WholeDownload.DownloadCompletes: the file stores what it is given, and no slice comes twice. PieceArrives and WriteAll cover attempts that fail and start again.
- PeerWire.Interpret: a payload that is too short for its fields is read beyond its end, which is undefined; here it is None.
- StatusBits.EveryRunBits: for completed calls that do not overlap, like EveryRunKeeps.
- TorrentFile.WholePieceRange: spanning ranges of multi-file torrents, which do not tile as written.

Of the rest of the repository:

- Sockets, epoll, DNS, connecting, trackers, HTTP, the daemon, signals, logging and the ping receive code: input and output.
- SendHave, SendPiece and the other sending of data: only the encoders are modelled.
- HandShake (the 68 bytes that open a connection), TaskQueue (the bounded queue of tasks for the worker threads), UrlEscape (percent-encoding for the tracker request), UniqueRWLock (a scoped lock) and TvSub (the difference of two timevals) are not modelled.
