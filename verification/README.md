# A verified model of the libraries' algorithms

This project models five self-contained parts of the repository and proves what they are for.

* **FastLZ** (`LzCopy`, `FastLzFormat`, `FastLzSearch`, `FastLzCompressor`, `FastLzDecompressor`). Levels 1 and 2,
  at the level of bytes: the hash table, the literal run whose count byte is patched later, biased lengths and
  distances, the far-distance escape, copies that overlap themselves. The stream format is a list of tokens; the
  decoder is also written as a function of the stream, and that function inverts the encoding of every token list.
  Which positions are tried and which matches are taken is said apart from the loops, and determines the stream.
* **QuickLZ level 3** (`QlzFormat`, `QlzSearch`, `QlzDecoder`, `QlzCompressor`, `QuickLz`, `CompressedFormats`).
  Streaming buffer 0 and memory-safe mode, in the byte-wise branches: 31-flag control words, five match formats,
  the stored form, the tail and the packet header; the search among sixteen remembered positions and the test that
  gives up. `CompressedFormats` describes both formats bit by bit.
* **FlashDB** key-value store (`FlashStatus`, `KvFlash`, `KvSteps`, `KvCache`, `KvGc`, `KvCollect`, `KvKeeps`,
  `KvCuts`, `KvAlike`, `KvCapacity`, `KvLoss`, `KvStates`, `KvAgain`, `KvDb`, `KvRecovery`, `KvRestart`,
  `KvExamples`). A sector is a list of records with a store status and a dirty status. The database is an object whose
  every flash operation is one step with an entry in a
  history (`trace`), so a power cut is "any entry of the history". Moving a record, collecting a sector and
  collecting garbage are also functions of the flash, and the methods are proved equal to them, history included.
  `Denotes(f, m)` says that flash state `f` holds exactly the map `m` at rest; `Held(c, f, m)` that a live copy of
  every entry is there, which is not yet that loading gets to it. `Load` is one loading as the source does it:
  what it makes of a held state is stated with its exact conditions, and so is what loading again and again comes
  to, whether the loadings end early or are cut themselves. A name is compared as `read_kv` leaves it in its buffer.
  The status tables the protocol relies on are modelled bit by bit.
* **FlashDB** time series store (`TsFlash`, `TsDb`). Sectors with index entries growing up and data growing
  down, the ring of sectors, the sector copy kept in memory, iteration by address and by time, re-opening.
* **cJSON** (`Json`, `JsonPrinter`, `JsonReader`, `JsonParser`, `JsonGrammar`, `JsonTokens`, `JsonLanguage`,
  `JsonDocuments`, `JsonRoundTrip`, `JsonList`, `JsonSort`, `JsonPointer`). The printer over its growing buffer, the
  recursive descent parser over its parse buffer, the child list whose head's `prev` is the tail, the mergesort of
  that list, and JSON Pointers (RFC 6901). `JsonGrammar` is a grammar that stands beside the parser: a value with
  all its blanks and escapes is a `Spelling`, with a text (`Render`) and a meaning. The parser accepts exactly the
  spellings, every JSON text of RFC 8259 without fractions is one, and the printer writes one of them.
* **MD5** streaming (`Md5`, RFC 1321 sections 3.1 to 3.5). The buffering and the 64-bit count around a block
  function that is a parameter.

Code that works step by step in the source is a method with its loops, on arrays or on the fields of a class; each
is proved against a function of its inputs, and the lemmas are about those functions.

Where the code falls short of what it is for:

* A name of exactly 64 bytes (`FDB_KV_NAME_MAX`, which names "must" be shorter than, `fdb_def.h:23`) is accepted by
  `create_kv_blob`, but `read_kv` cuts it to 63 characters and keeps its length, so no scan finds it, and recovery
  does not see that it is stored already. It is found only as long as its cache slot lasts; the next set after that
  leaves two WRITE records (`KvCollect.StoredIff`, `KvDb.Database.SetKv`; instances `KvExamples.LongNameLost`,
  `LongNameTwice`, `SecondCopy`). The results on maps are therefore about stores with shorter names, and about sets
  of any other names; longer ones are refused.
* Loading a key-value store can hang. `set_kv` marks the old record PRE_DELETE before it marks the sector
  dirty; a cut in between leaves a record that recovery must copy, although room was only ever allocated for the
  new value. The record is stranded exactly if its sector is clean and there is no room for the copy, neither at
  once nor after the dirty sectors are collected; loading hangs exactly if moreover nothing unfinished comes before
  it, and loading repeatedly comes to rest exactly if it is not stranded (`KvRecovery.HangsIff`, `CutBeforeDirtyMark`,
  `KvRestart.Restart`; instance `KvExamples.HangExample`).
* Loading can end too early. The scan stops at the first PRE_WRITE record and is not repeated, so a pending
  record behind it stays PRE_DELETE and its name is not found any more. A loading that ends does so at rest
  exactly if no PRE_WRITE record comes before the pending one (`KvRecovery.Load`; instance `KvExamples.EarlyEnd`).
  Loading again helps (`KvRestart.Restart`); going on instead can leave two WRITE records of one name
  (`KvExamples.SecondCopy`).
* A cut inside a garbage collection can lose data, because the collection taken up again formats a sector even when
  a record of it could not be moved. It keeps the map exactly if an EMPTY sector is left or every live record of the
  sector finds its place without one (`KvRestart.GcCutKeepsIff`); if it was the sector's last record whose copy was
  cut, exactly if a clean sector in use has room for one more copy (`KvRestart.LastCopyKeepsIff`). Only a cut in the
  writing of a copy can break that (`KvStates.GcCut`); cut anywhere else, and however often, a collection ends in the
  very flash it would have ended in (`KvAgain.CutsAgain`). Instance of a loss: `KvExamples.CutInGcLoses`.
* At one-bit write granularity a status that is a multiple of eight clears no bit of its own
  (`FlashStatus.ReadsLargest`); no table of the database is that long (`FewStatuses`).
* `add_item_to_array` leaves the new item's own `next` as it is, so the list is well formed exactly if that was
  null (or the list was empty) (`JsonList.Add`).
* `fdb_tsl_iter_by_time` visits nothing when `from` falls between two sectors (`TsDb.Database.IterateByTime`;
  instance `TsDb.MissedLog`).
* A time series store without rollover that is full has no current sector when it is opened again
  (`TsDb.Database.Reopen`), and refuses every log also once rollover is switched on (`TsDb.Database.Append`).
* `cJSON_Parse` takes more than JSON: leading zeros, control characters in strings, any byte up to 32 as a blank,
  and a `\u` with wrong digits, which counts as NUL and so ends the string (`JsonDocuments.AcceptsIff`, `Lenient`).
* `decode_array_index_from_pointer` tests the first character of the token where it should test the current one,
  and takes the empty token for 0. So "1a" is read as 59. It takes exactly the array indices of RFC 6901 if and only
  if the token is not of those kinds (`JsonPointer.IndexMeetsGrammar`, `NoIndices`).
* `MD5Update` computes `i + 64 <= inputlen` in 32 bits. With nothing buffered an input of 2^32 - 64 bytes or more, and
  with r bytes buffered one of 2^32 - r or more, makes the index wrap and the loop never end (`Md5.EndsIff`;
  instance `Md5.FirstTooLong`).

## Model

| member | source | states |
|---|---|---|
| LzCopy.CopyReproduces | fastlz/fastlz.c:499-546 | where a text repeats itself at distance d, copying byte by byte from d back reproduces it, overlapping or not |
| FastLzFormat.ReadMatchUndoes | fastlz/fastlz.c:453-484 | the decoder reads back the length, the distance and the byte count of every match either level can write, whatever follows |
| FastLzFormat.FirstByte | fastlz/fastlz.c:431-434 | a stream that opens with a literal run has its top three bits free for the level marker |
| FastLzFormat.EncodingDecodes | fastlz/fastlz.c:441-570 | decoding the bytes of any well-formed token list yields exactly what the tokens stand for and leaves the rest of the stream |
| FastLzFormat.StreamDecodes | fastlz/fastlz.c:150-162 | with the level marker in the first byte the whole stream is decoded at the level it was written for |
| FastLzFormat.ShortStreamDecodes | fastlz/fastlz.c:194-212 | the one untagged run an input of one to three bytes becomes is decoded as level 1, whichever level wrote it |
| FastLzSearch.OneWay | fastlz/fastlz.c:227-308 | for every input and level there is one sequence of moves, literals and matches, that the search allows, and so one stream |
| FastLzSearch.LatestIs | fastlz/fastlz.c:247-258 | the position tried is the last one entered with that hash value |
| FastLzSearch.OneByteMoves | fastlz/fastlz.c:227-308 | a text of one byte repeated, fifteen times or more, becomes one match for all but its first two and last three bytes, from one back at level 2 and two back at level 1 |
| FastLzCompressor.FindMatch | fastlz/fastlz.c:227-279 | a match is reported exactly if there is one: at level 2 four equal bytes, else at the last position entered with the same hash value, within the distance limit, three bytes equal, five if far; the table gains this position and nothing else |
| FastLzCompressor.Extend | fastlz/fastlz.c:280-308 | the match goes on exactly until the bytes differ or its limit near the end of the input is reached |
| FastLzCompressor.EmitMatch | fastlz/fastlz.c:321-388 | a match of any length, split into maximal pieces at level 1, is written as tokens that stand for exactly its bytes, in no more bytes than it covers |
| FastLzCompressor.PutLiteral | fastlz/fastlz.c:401-409 | one more literal; a full run is closed and a new run byte reserved; the size bound is kept |
| FastLzCompressor.CloseRun | fastlz/fastlz.c:310-319 | the count byte of the open run is patched, or dropped when the run is empty, and the buffer then holds complete tokens for the input so far |
| FastLzCompressor.PutMatch | fastlz/fastlz.c:280-399 | after a match and the opening of the next run the tokens stand for the input up to the new position, within n + n/32 + 1 bytes; the tokens added and the two positions entered in the table |
| FastLzCompressor.Compress | fastlz/fastlz.c:176-439 | for every input the output decodes to the input with every maxout >= its length, and takes at most n + n/32 + 1 bytes; from four bytes on it is the stream of the moves that the search determines |
| FastLzDecompressor.DecompressLevel | fastlz/fastlz.c:441-570 | the in-place loop computes what the decoder function says, including every rejection |
| FastLzDecompressor.Decompress | fastlz/fastlz.c:150-162 | level dispatch; an unknown level gives 0 |
| FastLzDecompressor.RoundTrip | fastlz/fastlz.c:140-172 | compress then decompress gives back every non-empty input, at both levels, with any sufficient buffers |
| FastLzDecompressor.PaddingSuffices | fastlz/fastlz.h:38-39 | the documented padding covers the proved bound |
| CompressedFormats.FastLzShort | fastlz/fastlz.c:453-484 | which bits of a match of less than nine bytes are its length and its distance, near and far |
| CompressedFormats.FastLzLong1 | fastlz/fastlz.c:453-470 | a longer match at level 1 |
| CompressedFormats.FastLzLong2 | fastlz/fastlz.c:453-484 | a longer match at level 2: the length is what a run of 255s and a smaller byte add up to |
| CompressedFormats.FastLzSamples | fastlz/fastlz.c:150-162 | two streams written by hand, one of each level, are decoded; a third level is refused |
| QlzFormat.WordOfLE | quicklz/quicklz.c:108-183 | a little-endian word written in k bytes is read back, whatever follows |
| QlzFormat.ReadMatchUndoes | quicklz/quicklz.c:448-477 | the five bit-packed formats all decode to the offset, length and byte count encoded, whatever bytes follow, and no match costs more bytes than it covers |
| CompressedFormats.QlzFields | quicklz/quicklz.c:642-671 | for every 32-bit value: which bits tell the five formats apart, and which are the offset and the length |
| CompressedFormats.QlzShortest | quicklz/quicklz.c:448-477 | the compressor takes the shortest format that can say the match |
| CompressedFormats.FlagBits | quicklz/quicklz.c:282-294 | bit i of a control word tells whether the i-th token below it is a match, and bit 31 ends it |
| CompressedFormats.LowestFirst | quicklz/quicklz.c:140-183 | numbers are written lowest byte first |
| CompressedFormats.HeaderBits | quicklz/quicklz.c:795-815 | every bit of the header's first byte, and the bytes of both sizes |
| CompressedFormats.QlzSample | quicklz/quicklz.c:561-736 | a packet written by hand, literals, a match and literals, is unpacked |
| QlzDecoder.LiteralRun | quicklz/quicklz.c:692-704 | the four-flag lookup counts literals that are really there and never runs into the next control word |
| QlzDecoder.EnoughLeft | quicklz/quicklz.c:583-594 | a valid rest of at least four bytes occupies at least four bytes of stream, so the memory-safe reads never reject it |
| QlzDecoder.FillDecodes | quicklz/quicklz.c:709-732 | the uncompressed end reads exactly the remaining literals |
| QlzDecoder.StreamDecodes | quicklz/quicklz.c:561-736 | every valid token stream decodes to its meaning and passes every memory-safe check |
| QlzSearch.HistoryHas | quicklz/quicklz.c:428-443 | the positions remembered for a hash value are among all earlier ones that have it, in order |
| QlzSearch.OneChoice | quicklz/quicklz.c:376-485 | of two token lists that the search allows for one source, one begins with the other: the stream is determined |
| QlzSearch.OneByteTaken | quicklz/quicklz.c:376-485 | in a text of one byte repeated the fourth token is a match from three back, as long as a match may be |
| QlzCompressor.GivesUpOrNot | quicklz/quicklz.c:282-286 | giving up is determined too: no source has both outcomes |
| QlzCompressor.CwordSnoc | quicklz/quicklz.c:445-484 | shifting a flag in at the top keeps the control word the flags so far with an end marker below |
| QlzCompressor.CwordFull | quicklz/quicklz.c:282-288 | the lowest bit is set exactly when 31 flags are in, and the word then written is that of the flags |
| QlzCompressor.PackToken | quicklz/quicklz.c:433-485 | a literal or match added to an open group extends the text it stands for by exactly its bytes |
| QlzCompressor.PackClose | quicklz/quicklz.c:282-294 | writing the control word into the hole left for it makes the group part of the stream |
| QlzCompressor.PackDecodes | quicklz/quicklz.c:552-558 | once the whole source is packed the decompressor returns it, whatever follows |
| QlzCompressor.CostCloses | quicklz/quicklz.c:282-294 | a full group costs at most what it covers plus one word; before the middle of the source the abort test can therefore fail only with size to spare |
| QlzCompressor.CompressState.Insert | quicklz/quicklz.c:428-430 | the position is entered in the slot of the oldest: afterwards each hash value's count is the number of its positions modulo 256 and its slots hold the last sixteen of them |
| QlzCompressor.CompressState.Reset | quicklz/quicklz.c:73-84 | clearing the counters is enough to forget positions left by an earlier call |
| QlzCompressor.FindMatch | quicklz/quicklz.c:376-430 | the longest match among the positions remembered for the hash value of the next three bytes, the nearest of equally long ones, exactly if there is one; it is a true repetition, far enough back, at most 255 long and clear of the end |
| QlzCompressor.InsertInside | quicklz/quicklz.c:438-443 | all positions inside a match are entered |
| QlzCompressor.FastWrite | quicklz/quicklz.c:140-183 | exactly n little-endian bytes change |
| QlzCompressor.PutMatch | quicklz/quicklz.c:448-477 | the bytes of the format chosen are appended, all before them unchanged |
| QlzCompressor.NextGroup | quicklz/quicklz.c:282-294 | the control word is patched in, room for the next one is left, everything already written keeps its meaning |
| QlzCompressor.PutTail | quicklz/quicklz.c:517-550 | after the last match start only literals follow, which is what the decompressor expects |
| QlzCompressor.LastWord | quicklz/quicklz.c:552-555 | shifting out the unused flags leaves the word of the flags used |
| QlzCompressor.Finish | quicklz/quicklz.c:552-558 | the closed stream decodes to the source; a result under nine bytes counts as nine |
| QlzCompressor.CompressCore | quicklz/quicklz.c:264-559 | the tokens are the ones the search determines; 0 exactly if after whole groups and more than half of the source they take more than 31 bytes for every 32; otherwise their stream, at most size + 142 bytes, which decodes to the source |
| QuickLz.HeaderReads | quicklz/quicklz.c:186-208 | the size readers return what the header was written from, in both widths |
| QuickLz.CopyUp | quicklz/quicklz.c:211-231 | the upward copy equals byte-by-byte copying, overlap included |
| QuickLz.FillEnd | quicklz/quicklz.c:709-732 | the loop over the uncompressed end computes the decoder function |
| QuickLz.DecompressCore | quicklz/quicklz.c:561-736 | the in-place loop computes the decoder function, checks included |
| QuickLz.Decompress | quicklz/quicklz.c:818-856 | compressed and stored packets |
| QuickLz.Compress | quicklz/quicklz.c:738-816 | 0 exactly for sizes the source refuses; otherwise at most size + 151 bytes, a one-byte total for size < 216, the header, and a packet that unpacks to the source: the stream of the tokens that the search determines, or, exactly if they gain too little, the source itself |
| QuickLz.RoundTrip | quicklz/quicklz.c:738-856 | decompressing the compressed source gives it back, for every size up to 0xffffffff - 400 |
| FlashStatus.MarksAfter | FlashDB/src/fdb_utils.c:136-160 | programming a status keeps every mark, adds its own, and adds none above it |
| FlashStatus.ShiftTables | FlashDB/src/fdb_utils.c:91-134 | the masks and bits are those of the shifts |
| FlashStatus.TableLayout | FlashDB/src/fdb_utils.c:94-109 | the bytes of a table of three statuses as they are recorded, with one, eight and thirty-two bits written together |
| FlashStatus.ScanFinds | FlashDB/src/fdb_utils.c:115-134 | the downward scan stops at the highest mark |
| FlashStatus.StatusAfter | FlashDB/src/fdb_utils.c:91-169 | whatever the table holds, after a write the status read is the larger of the old one and the one written (or 0 for a mark that clears nothing) |
| FlashStatus.StatusOfHistory | FlashDB/src/fdb_utils.c:91-169 | after any sequence of writes to an erased table the status read is the largest effect |
| FlashStatus.ReadsLargest | FlashDB/src/fdb_utils.c:91-113 | the status read is the largest written if and only if that is not, at one-bit granularity, a positive multiple of eight |
| FlashStatus.FewStatuses | FlashDB/src/fdb_utils.c:91-134 | tables of at most eight statuses, so all of the database's, always read the largest written |
| FlashStatus.SetStatus | FlashDB/src/fdb_utils.c:91-113 | every byte of the table prepared in memory and the byte to be programmed |
| FlashStatus.GetStatus | FlashDB/src/fdb_utils.c:115-134 | the loop computes the status function |
| FlashStatus.Program | FlashDB/src/fdb_utils.c:286-307 | programming only clears bits, and only in the given range |
| FlashStatus.WriteStatus | FlashDB/src/fdb_utils.c:136-160 | one program operation turns the table on flash into the specified one, so the larger status is read |
| KvSteps.Prepared | FlashDB/src/fdb_kvdb.c:848-901 | marking the map's record PRE_DELETE makes it the one pending copy; the map is still held |
| KvSteps.Revived | FlashDB/src/fdb_kvdb.c:906-967 | re-writing a pending pair whose key is not stored gives the map back |
| KvSteps.Duplicate | FlashDB/src/fdb_kvdb.c:918-929 | a pending pair whose key is stored may be dropped without loss |
| KvSteps.WrittenOnce | FlashDB/src/fdb_kvdb.c:504-528 | in every held state a key has at most one WRITE record and it is the map's |
| KvSteps.MoveStates | FlashDB/src/fdb_kvdb.c:906-967 | in both intermediate states of a move a live copy of every entry is there |
| KvSteps.AddedStates | FlashDB/src/fdb_kvdb.c:1085-1163 | adding the record of a new key gives the map with that entry |
| KvSteps.ReplacedStates | FlashDB/src/fdb_kvdb.c:1193-1225 | once the new record is WRITE the new map is held, with the old record pending |
| KvSteps.MidAppendSame | FlashDB/src/fdb_kvdb.c:1085-1163 | until it is complete a new record changes nothing that is live |
| KvCache.Update | FlashDB/src/fdb_kvdb.c:170-209 | every slot keeps its content or gets the new address, and the first slot in use for a CRC stays the right one although freed slots are not cleared |
| KvCache.Lookup | FlashDB/src/fdb_kvdb.c:214-237 | a hit points to a good WRITE record of the name's CRC; a miss means that no slot in use has that name |
| KvCache.SoundUpdated | FlashDB/src/fdb_kvdb.c:170-209 | the cache stays sound over set, delete, eviction and moves |
| KvGc.SpillRoom | FlashDB/src/fdb_kvdb.c:806-846 | during a collection the next live record always finds a sector |
| KvGc.FullIsLast | FlashDB/src/fdb_kvdb.c:742-770 | the one sector that takes the overflow can become FULL only with the last record |
| KvGc.SpillStep | FlashDB/src/fdb_kvdb.c:906-967 | placing a record keeps the overflow in one formerly EMPTY sector that holds no more than the collected one did |
| KvGc.GcRoom | FlashDB/src/fdb_kvdb.c:1010-1035 | no move of a collection fails for lack of room |
| KvGc.GcMove | FlashDB/src/fdb_kvdb.c:1010-1035 | a move keeps that argument going and touches no other sector's dirty status |
| KvGc.PickIsChosen | FlashDB/src/fdb_kvdb.c:806-846 | the allocator finds a sector exactly if one may be given out, and spends an EMPTY one only if no sector in use has room |
| KvGc.PickIsFirst | FlashDB/src/fdb_kvdb.c:806-846 | and it takes the lowest-numbered of them, in use first |
| KvCapacity.LaidOut | FlashDB/src/fdb_kvdb.c:1101-1106 | in a record header, name and value lie one behind the other, each at the first multiple of the write unit |
| KvCapacity.LengthBounds | FlashDB/src/fdb_kvdb.c:993-993 | a record takes at least the bytes of header, name and value, and less than two units more |
| KvCapacity.CollectTidy | FlashDB/src/fdb_kvdb.c:1010-1057 | a collection keeps what holds of a store that was never cut: clean sectors hold live records only, a FULL one has less than the threshold left |
| KvCapacity.NoRoomMeans | FlashDB/src/fdb_kvdb.c:806-846 | in such a store no room, also after collecting, means that the value is larger than a sector takes or the live records fill all sectors but one |
| KvCollect.StoredIff | FlashDB/src/fdb_kvdb.c:504-528 | the scan finds a name if and only if a good WRITE record of it is there and it is shorter than 64 bytes, since read_kv (357-366) cuts a name that fills its buffer |
| KvCollect.StepGrows | FlashDB/src/fdb_kvdb.c:1020-1029 | a turn of the collection changes its own record and appends complete records to clean sectors, nothing else |
| KvCollect.CollectSweeps | FlashDB/src/fdb_kvdb.c:1042-1057 | whatever the flash held: afterwards no sector is dirty, clean sectors keep their records, all others are complete copies |
| KvKeeps.MoveKeeps | FlashDB/src/fdb_kvdb.c:906-967 | a completed move keeps the map, and resolves the pending record if it moves that one |
| KvKeeps.SectorKeeps | FlashDB/src/fdb_kvdb.c:1010-1035 | collecting a sector in which every live record finds its place keeps the map |
| KvCuts.SpillFits | FlashDB/src/fdb_kvdb.c:1010-1035 | also a collection taken up again between two moves, with no EMPTY sector left, finds room for every record |
| KvCuts.ReserveFits | FlashDB/src/fdb_kvdb.c:1010-1035 | with one EMPTY sector to start with every record finds its place |
| KvCuts.CollectKeeps | FlashDB/src/fdb_kvdb.c:1042-1057 | a collection that fits keeps the map, resolves what is pending in a dirty sector and leaves an EMPTY sector |
| KvLoss.PendingOnce | FlashDB/src/fdb_kvdb.c:1464-1477 | in a held state only one record is pending |
| KvLoss.MisplacedLost | FlashDB/src/fdb_kvdb.c:1023-1030 | a name whose record finds no place is gone for good after the collection |
| KvLoss.ResumedKeepsIff | FlashDB/src/fdb_kvdb.c:1010-1035 | without an EMPTY sector a collection keeps the map if and only if every live record of the first dirty sector finds room at its turn or has its name stored |
| KvLoss.RoomyFits | FlashDB/src/fdb_kvdb.c:806-846 | a clean sector in use with room for all live records, and the threshold, is enough for that |
| KvLoss.LastLiveFitsIff | FlashDB/src/fdb_kvdb.c:806-846 | without an EMPTY sector the last live record of a sector finds its place if and only if a clean sector in use has room for it |
| KvLoss.FirstLiveFits | FlashDB/src/fdb_kvdb.c:806-846 | and in any case the first live record must find such room |
| KvAlike.LikeCollect | FlashDB/src/fdb_kvdb.c:1042-1057 | flashes that differ only in dead records of equal length are collected alike: the same records are moved to the same places |
| KvStates.MoveStateHeld | FlashDB/src/fdb_kvdb.c:906-967 | in every flash state on the way of a move, at rest or in recovery, the map is held |
| KvStates.TurnSurvives | FlashDB/src/fdb_kvdb.c:1020-1029 | in every state of a turn but those of the copy being written, the collection can be completed |
| KvStates.GcCut | FlashDB/src/fdb_kvdb.c:1042-1057 | a collection of a store at rest, cut anywhere: the map is held, what is pending is in a marked sector, and the collection can be completed unless a copy was being written |
| KvStates.GcHeld | FlashDB/src/fdb_kvdb.c:1450-1462 | a collection during recovery with nothing pending before: the map is held at every step |
| KvAgain.PassedAfter | FlashDB/src/fdb_kvdb.c:1020-1029 | at turn i of a collection all records before are dead or PRE_DELETE without room, and room only gets less |
| KvAgain.TurnResumed | FlashDB/src/fdb_kvdb.c:1020-1029 | a turn that was cut, but not in the writing of its copy, and is repeated from the start of the sector: the sector ends the same |
| KvAgain.CollectResumed | FlashDB/src/fdb_kvdb.c:1450-1462 | a collection made by loading, whatever the flash holds, cut anywhere but in the writing of a copy: taken up again it ends in the very flash it would have ended in |
| KvAgain.CutsAgain | FlashDB/src/fdb_kvdb.c:1450-1462 | and so it does after any number of such cuts |
| KvAgain.CutsAgainKeep | FlashDB/src/fdb_kvdb.c:1450-1462 | started from a held map that is the end of it: the map held and a sector EMPTY |
| KvAgain.TurnKept | FlashDB/src/fdb_kvdb.c:906-967 | during recovery, also with another record pending, every state of a move has a live copy of every entry and no WRITE record but the map's |
| KvAgain.GcRetrievable | FlashDB/src/fdb_kvdb.c:1450-1462 | a second cut, anywhere in a collection made by loading, a record pending or not: a live copy of every entry is there, and, with at most one EMPTY sector, the next loading completes the collection with the map held if it can be completed |
| KvDb.Database.UpdateSecStatus | FlashDB/src/fdb_kvdb.c:742-770 | EMPTY to USING, USING to FULL under the threshold, in at most one flash write |
| KvDb.Database.AppendRecord | FlashDB/src/fdb_kvdb.c:1085-1163 | the record is added, and the history holds exactly states of a record being written |
| KvDb.Database.AllocKv | FlashDB/src/fdb_kvdb.c:823-846 | the allocator's choice as a function, and a GC request exactly on failure with one EMPTY sector left |
| KvDb.Database.FindNoCache | FlashDB/src/fdb_kvdb.c:504-528 | finds a good WRITE record with the name exactly if there is one and the name is shorter than 64 bytes |
| KvDb.Database.Find | FlashDB/src/fdb_kvdb.c:530-552 | through the cache or by a scan, finds exactly the map's entry, in a store whose names are shorter than 64 bytes |
| KvDb.Database.DelKv | FlashDB/src/fdb_kvdb.c:848-901 | the whole new flash state and history, cache effect and lastDel flag of both kinds of deletion |
| KvDb.Database.MoveKv | FlashDB/src/fdb_kvdb.c:906-967 | the whole new flash state, on failure too, for names of any length; fails exactly if no sector can take the record; every new entry of the history is a state of that move |
| KvDb.Database.DoGc | FlashDB/src/fdb_kvdb.c:1010-1035 | the whole new flash state and the states on the way, also when records find no room; the cache stays sound when all do and the names are shorter than 64 bytes |
| KvDb.Database.GcCollect | FlashDB/src/fdb_kvdb.c:1042-1057 | the whole new flash state and the states on the way |
| KvDb.Database.CollectAtRest | FlashDB/src/fdb_kvdb.c:1042-1057 | at rest: the map and an EMPTY sector stay, no sector stays dirty, and every cut is as GcCut says |
| KvDb.Database.NewKv | FlashDB/src/fdb_kvdb.c:969-989 | the allocator's choice, after at most one collection; without one, nothing is left to collect |
| KvDb.Database.CreateKv | FlashDB/src/fdb_kvdb.c:1085-1163 | the new flash state, history, cache and GC request |
| KvDb.ReplaceCut | FlashDB/src/fdb_kvdb.c:1205-1217 | in every state of a replacement the old or the new map is held, an EMPTY sector is there, and the pending record is in a marked sector but for the very first state |
| KvDb.Database.ReplaceKv | FlashDB/src/fdb_kvdb.c:1205-1217 | the store denotes the map with the entry set; every cut is as ReplaceCut says |
| KvDb.Database.SetKv | FlashDB/src/fdb_kvdb.c:1193-1225 | success changes exactly that key; failure changes nothing and means that there is no room or, exactly for names over 64 bytes, a name error; a header, name and value as long as a sector takes are never stored, and with two sectors EMPTY everything shorter, up to alignment, is; in a store never cut no room means that the live records leave none; in every state on the way the old or the new map is held. A name of exactly 64 bytes is stored, and then no scan finds it |
| KvDb.Database.DeleteKey | FlashDB/src/fdb_kvdb.c:1173-1199 | removes exactly that key; an unknown one, so any of 64 bytes or more, is an error; in every state on the way the old or the new map is held |
| KvDb.Database.GetKv | FlashDB/src/fdb_kvdb.c:567-589 | the prefix of the stored value that fits, and its length |
| KvDb.Database.Format | FlashDB/src/fdb_kvdb.c:1280-1316 | a formatted store denotes the empty map, all its sectors EMPTY |
| KvDb.Database.Perform | FlashDB/src/fdb_kvdb.c:1173-1225 | one set, of a name that has not exactly 64 bytes, or delete, with its error cases, what no room means, and what holds in every flash state on the way |
| KvDb.Database.Run | FlashDB/src/fdb_kvdb.c:1173-1225 | over any sequence of deletes and of sets of names that have not exactly 64 bytes the store refines a map, keeps one EMPTY sector and wastes no room |
| KvRecovery.RecoverRecord | FlashDB/src/fdb_kvdb.c:1464-1490 | the whole effect of the callback in each of its four cases; a cut on the way leaves a state the next scan can start from |
| KvRecovery.RecoverPass | FlashDB/src/fdb_kvdb.c:1464-1490 | a scan asks for a GC exactly if it is stuck; else it leaves the pending record alone exactly if a PRE_WRITE record comes first |
| KvRecovery.ResumeGc | FlashDB/src/fdb_kvdb.c:1450-1462 | the whole new flash state; the map is kept; every state on the way is as GcRetrievable says, and with nothing pending before it holds the map |
| KvRecovery.CollectOnce | FlashDB/src/fdb_kvdb.c:1525-1528 | the same for the collection between two scans |
| KvRecovery.HangsIff | FlashDB/src/fdb_kvdb.c:1522-1528 | loading hangs if and only if nothing unfinished comes before the pending record and it is stranded: its sector is clean, and no sector may take it, neither now nor after a collection |
| KvRecovery.HangsStranded | FlashDB/src/fdb_kvdb.c:1522-1528 | a hang means a stranded record, and with no PRE_WRITE record in the way a stranded record means a hang |
| KvRecovery.Load | FlashDB/src/fdb_kvdb.c:1497-1537 | one loading ends unless it hangs, after at most two scans, and ends at rest with exactly the map if and only if no PRE_WRITE record comes before the pending one; every state on the way is as GcRetrievable says |
| KvRecovery.CutBeforeDirtyMark | FlashDB/src/fdb_kvdb.c:871-898 | for a cut between the PRE_DELETE mark and the dirty mark, in any store at rest: the exact conditions for the record being stranded and for the hang, also where a collection that was cut is completed first |
| KvRestart.DirtyEnds | FlashDB/src/fdb_kvdb.c:1522-1528 | a pending record in a marked sector is never stranded, so loading does not hang |
| KvRestart.EarlyProgress | FlashDB/src/fdb_kvdb.c:1478-1483 | a loading that ended early leaves fewer unfinished records, and strands no record and frees none |
| KvRestart.Restart | FlashDB/src/fdb_kvdb.c:1600-1653 | loading again from what the last loading left comes to rest with exactly the held map, after at most one loading more than there are unfinished records, if and only if no pending record is stranded |
| KvRestart.CutAndRestart | FlashDB/src/fdb_kvdb.c:1193-1537 | an operation at rest, cut at any flash write, and loaded again: from every state in which a collection can be completed it comes to rest with the old or the new map if and only if no pending record is stranded |
| KvRestart.GcCutKeepsIff | FlashDB/src/fdb_kvdb.c:1450-1462 | a collection cut at any flash write: loading keeps the map if and only if an EMPTY sector is left or the records find their place without one |
| KvRestart.LastCopyKeepsIff | FlashDB/src/fdb_kvdb.c:1450-1462 | if the copy of the last record of the sector was cut and no EMPTY sector is left: if and only if a clean sector in use has room for one more copy |
| KvExamples.HangExample | FlashDB/src/fdb_kvdb.c:1464-1537 | a store at rest and a replacement whose first cut makes loading hang |
| KvExamples.CutInSetReached | FlashDB/src/fdb_kvdb.c:1085-1163 | a replacement cut when the new record had its header |
| KvExamples.EarlyEnd | FlashDB/src/fdb_kvdb.c:1478-1483 | loading that state ends, not at rest, and the name is not found |
| KvExamples.SecondCopy | FlashDB/src/fdb_kvdb.c:918-929 | outside recovery, or with a name of 64 bytes, a pending record is moved although its name is stored, and both are WRITE then |
| KvExamples.LongNameLost | FlashDB/src/fdb_kvdb.c:1092-1095 | on a formatted store a name of 64 bytes is set, and the scan does not find it |
| KvExamples.LongNameTwice | FlashDB/src/fdb_kvdb.c:1205-1213 | set again as a new name it has two WRITE records |
| KvExamples.BeforeGcAtRest | FlashDB/src/fdb_kvdb.c:1010-1035 | a store at rest with an EMPTY sector and a dirty one |
| KvExamples.CutInGcReached | FlashDB/src/fdb_kvdb.c:1010-1035 | the cut state is one on the way of collecting it |
| KvExamples.CutInGcStuck | FlashDB/src/fdb_kvdb.c:806-846 | with the half-written copy in the way no sector can take the record |
| KvExamples.CutInGcLoses | FlashDB/src/fdb_kvdb.c:1450-1462 | the state holds the map, what loading makes of it does not |
| TsFlash.AreasDisjoint | FlashDB/src/fdb_tsdb.c:265-284 | index entries and logs never overlap, nor do two logs |
| TsFlash.LogInside | FlashDB/src/fdb_tsdb.c:265-284 | every log lies between the free area and the end of its sector |
| TsFlash.PackedAppend | FlashDB/src/fdb_tsdb.c:265-284 | writing a log into free cells leaves the bytes of all others |
| TsFlash.FreeRoom | FlashDB/src/fdb_tsdb.c:265-284 | what the logs of a sector do not take of its data area is free |
| TsFlash.BetweenSlice | FlashDB/src/fdb_tsdb.c:454-529 | in a log in order the logs in a range are those from the first not too early up to the first too late |
| TsFlash.BetweenCounts | FlashDB/src/fdb_tsdb.c:454-529 | and of any log exactly those in the range, as often as they are there |
| TsFlash.ContentShift | FlashDB/src/fdb_tsdb.c:286-345 | dropping the oldest sector drops exactly its logs |
| TsDb.RoomAfter | FlashDB/src/fdb_tsdb.c:161-224 | re-reading a sector from the start always leaves room for the entries still to come |
| TsDb.ReadSectorInfo | FlashDB/src/fdb_tsdb.c:161-224 | for the current sector the copy computed equals the one in memory; for a FULL one the end time and index are the recorded ones |
| TsDb.OldestDropped | FlashDB/src/fdb_tsdb.c:286-345 | formatting the oldest sector removes exactly its logs from the content |
| TsDb.Recycled | FlashDB/src/fdb_tsdb.c:286-345 | taking the oldest sector as the next one keeps flash and memory in step |
| TsDb.LowerBound | FlashDB/src/fdb_tsdb.c:496-508 | the search over index addresses ends at the first entry not earlier than `from` |
| TsDb.VisitFrom | FlashDB/src/fdb_tsdb.c:496-523 | from there the logs in the range are visited, up to the first that is not |
| TsDb.StartsHere | FlashDB/src/fdb_tsdb.c:494-498 | in front of the first sector whose span holds `from` no log is in the range |
| TsDb.StopsHere | FlashDB/src/fdb_tsdb.c:513-522 | behind a sector that ends after `to` no log is in the range |
| TsDb.Database.Format | FlashDB/src/fdb_tsdb.c:640-653 | a formatted store holds nothing |
| TsDb.Database.UpdateSecStatus | FlashDB/src/fdb_tsdb.c:286-345 | afterwards the current sector is in use and has room; SAVED_FULL exactly for a FULL sector, or without rollover at the last one; which sector is entered, the first one after the last, and that only what it held is dropped |
| TsDb.Database.WriteTsl | FlashDB/src/fdb_tsdb.c:265-284 | the new sector, and that all cells programmed, of the index entry and of the log, were erased ones |
| TsDb.Database.Append | FlashDB/src/fdb_tsdb.c:347-381 | the exact result code: a time before the last one is refused, and with rollover nothing else; the sector the log goes to, by the bytes of the logs there; the accepted logs, the last time, and which logs are dropped |
| TsDb.Database.AppendAll | FlashDB/src/fdb_tsdb.c:347-381 | with rollover no append fails that is not too early, over any run of them |
| TsDb.ThirdLog | FlashDB/src/fdb_tsdb.c:286-345 | in a ring of two sectors for one log each the third log is accepted and the first one dropped |
| TsDb.Database.Peek | FlashDB/src/fdb_tsdb.c:432-440 | what an iteration learns of a sector: its logs' first and last time and the last index, the current sector's from memory |
| TsDb.Database.Iterate | FlashDB/src/fdb_tsdb.c:414-452 | visits exactly a suffix of all accepted logs, in order and with their data |
| TsDb.Database.IterateByTime | FlashDB/src/fdb_tsdb.c:463-529 | visits exactly the logs in the range, in order, if `from` is not later than the oldest log, or lies between the first and the last log of a sector, so if it is the time of a stored log; otherwise visits nothing |
| TsDb.BothLogs | FlashDB/src/fdb_tsdb.c:489-525 | two logs in two sectors and a range from before the first: both are visited |
| TsDb.MissedLog | FlashDB/src/fdb_tsdb.c:489-525 | two logs and a range that holds the second, but begins between their sectors: nothing is visited |
| TsDb.Database.SetStatus | FlashDB/src/fdb_tsdb.c:576-585 | the larger status counts, the logs stay |
| TsDb.Database.Reopen | FlashDB/src/fdb_tsdb.c:742-820 | recomputes current sector, free room, oldest sector and last time, if and only if the store was not filled up without rollover |
| Json.TextHasNoNul | cjson/cJSON.c:525-535 | printed text holds no NUL, so the printer's strlen finds the end of what was written |
| JsonTokens.HexValueIff | cjson/cJSON.c:611-645 | a byte is taken for a hexadecimal digit exactly if it is that digit, small or capital |
| JsonTokens.EveryHex4 | cjson/cJSON.c:611-645 | every number below 2^16, in four digits each small or capital, is read as that number |
| JsonTokens.Utf8Decodes | cjson/cJSON.c:711-760 | the bytes written for a code point decode to it, with proper continuation marks |
| JsonTokens.Utf8Form | cjson/cJSON.c:711-760 | as many bytes as RFC 3629 has for it, with the mark of that many |
| JsonTokens.PieceReads | cjson/cJSON.c:648-760 | every character and every escape sequence is read as what it means |
| JsonTokens.ClosedEnds | cjson/cJSON.c:786-804 | the closing quote is found behind every string without a bare quote |
| JsonTokens.TokenReads | cjson/cJSON.c:769-895 | every spelling of a string is read, to its end, as what it means |
| JsonTokens.DecodeSpelled | cjson/cJSON.c:815-870 | whatever the second pass decodes is the meaning of pieces that stand there |
| JsonTokens.StringSpelled | cjson/cJSON.c:769-895 | a string that is read is one of those spellings |
| JsonTokens.NumeralReads | cjson/cJSON.c:305-379 | every integer of at most fifteen digits, in at most 63 characters, is read as its decimal value |
| JsonTokens.NumberSpelled | cjson/cJSON.c:305-379 | a number that is read is such a numeral |
| JsonLanguage.ValueParses | cjson/cJSON.c:1308-1360 | every spelling of a value, with any blanks, is read as what it means at any depth and place, or refused when nested too deep |
| JsonLanguage.ItemsParse | cjson/cJSON.c:1437-1532 | the elements of an array |
| JsonLanguage.MembersParse | cjson/cJSON.c:1597-1707 | the members of an object |
| JsonLanguage.ValueSpelled | cjson/cJSON.c:1308-1360 | a value that is read has a spelling there that means it, nested at most as deep as allowed |
| JsonLanguage.ItemsSpelled | cjson/cJSON.c:1437-1532 | so do the elements of an array |
| JsonLanguage.MembersSpelled | cjson/cJSON.c:1597-1707 | and the members of an object |
| JsonDocuments.DocumentParses | cjson/cJSON.c:1075-1168 | a byte order mark or none, blanks, a spelling and blanks are read as what the spelling means |
| JsonDocuments.DocumentSpelled | cjson/cJSON.c:1075-1168 | whatever is accepted is such a text, up to where reading ended |
| JsonDocuments.AcceptsIff | cjson/cJSON.c:1075-1168 | a text is accepted to its end, with a value, if and only if it is such a text that means the value, nested at most 1000 deep |
| JsonDocuments.StrictProper | cjson/cJSON.c:1308-1707 | every JSON text of RFC 8259 without fractions, exponents and lone surrogates is among them |
| JsonDocuments.CodePointParses | cjson/cJSON.c:648-760 | every code point but NUL and the surrogates, written as its one \u sequence or as its surrogate pair with digits small or capital, is read as the UTF-8 bytes that give it back |
| JsonDocuments.LettersParse | cjson/cJSON.c:826-852 | the eight letters behind a backslash, the slash among them |
| JsonDocuments.Samples | cjson/cJSON.c:648-760 | the euro sign and a character beyond 2^16, byte by byte |
| JsonDocuments.Lenient | cjson/cJSON.c:611-645 | three texts that are taken although they are no JSON |
| JsonPrinter.PrintBuffer.Ensure | cjson/cJSON.c:439-522 | succeeds exactly if the size needed is within the limit, then provides it and keeps what was written |
| JsonPrinter.PrintBuffer.UpdateOffset | cjson/cJSON.c:525-535 | the offset moves to the terminator of what was printed |
| JsonPrinter.PrintBuffer.PrintNumber | cjson/cJSON.c:545-608 | the decimal text of an integer, inside the room reserved |
| JsonPrinter.PrintBuffer.CountEscapes | cjson/cJSON.c:925-949 | the exact number of characters escaping adds |
| JsonPrinter.PrintBuffer.PrintString | cjson/cJSON.c:898-1017 | the quoted and escaped text, inside the room reserved |
| JsonPrinter.PrintBuffer.PrintValue | cjson/cJSON.c:1363-1434 | writes the value's text; succeeds exactly if the text and two bytes more are within the limit |
| JsonPrinter.PrintBuffer.PrintArray | cjson/cJSON.c:1535-1594 | brackets, elements and separators |
| JsonPrinter.PrintBuffer.PrintObject | cjson/cJSON.c:1710-1821 | braces, indentation, keys and line ends |
| JsonPrinter.Print | cjson/cJSON.c:1183-1256 | the text and its terminator, nothing else, exactly if its size is below the limit |
| JsonPrinter.PrintPreallocated | cjson/cJSON.c:1288-1305 | succeeds exactly if the buffer has two bytes more than the text, and never writes outside it |
| JsonRoundTrip.WrittenTokenMeans | cjson/cJSON.c:898-1017 | a printed string is a spelling of that string by RFC 8259 |
| JsonRoundTrip.DigitsMean | cjson/cJSON.c:545-608 | the digits printed are those of the number, without leading zeros |
| JsonRoundTrip.WrittenMeans | cjson/cJSON.c:1363-1821 | the printed text of a value, at any depth, formatted or not, is a JSON text that means the value |
| JsonRoundTrip.PrintedParses | cjson/cJSON.c:1308-1821 | parsing the printed form gives the value back if and only if it is nested at most 1000 deep; deeper it is refused |
| JsonRoundTrip.FormattingAddsBlanks | cjson/cJSON.c:1535-1821 | the formatted text is a spelling of the value, and without its blanks outside strings that spelling is the unformatted text, which has none |
| JsonRoundTrip.Layout | cjson/cJSON.c:1535-1821 | an object with an array in it, both ways, byte by byte |
| JsonRoundTrip.PrintAndParse | cjson/cJSON.c:1075-1256 | the printer and the parser in sequence |
| JsonParser.OneStep | cjson/cJSON.c:783-822 | a plain character never takes more than the estimate left for it |
| JsonParser.TwoSteps | cjson/cJSON.c:783-870 | two characters leave room for one byte, also when the passes disagree on what is an escape |
| JsonParser.CharacterFits | cjson/cJSON.c:783-870 | every decoded character fits the memory estimated by the first pass, valid text or not |
| JsonParser.PutUtf8 | cjson/cJSON.c:711-760 | the backwards loop writes exactly those bytes |
| JsonParser.ParseBuffer.SkipWhitespace | cjson/cJSON.c:1034-1057 | stops at the first character above 32 or at the terminator |
| JsonParser.ParseBuffer.FindEnd | cjson/cJSON.c:783-804 | the closing quote and the number of escapes skipped |
| JsonParser.ParseBuffer.ParseString | cjson/cJSON.c:769-895 | in place equal to the reading function, which JsonTokens.TokenReads and StringSpelled describe; the output array never overrun |
| JsonParser.ParseBuffer.ParseNumber | cjson/cJSON.c:305-379 | at most 63 characters, in place equal to the reading function |
| JsonParser.ParseBuffer.ParseValue | cjson/cJSON.c:1308-1360 | in place equal to the reading function, never past the terminator |
| JsonParser.ParseBuffer.ParseArray | cjson/cJSON.c:1437-1532 | in place equal to the reading function |
| JsonParser.ParseBuffer.ParseObject | cjson/cJSON.c:1597-1707 | in place equal to the reading function |
| JsonParser.Parse | cjson/cJSON.c:1075-1168 | a whole C string, byte order mark and termination test included, in place equal to the reading function, which JsonDocuments.AcceptsIff describes |
| JsonList.GetItem | cjson/cJSON.c:1847-1864 | the node at the index, or null |
| JsonList.Add | cjson/cJSON.c:1952-1983 | appends; the list is well formed afterwards if and only if it was empty or the item came with a null next |
| JsonList.Detach | cjson/cJSON.c:2183-2217 | removes exactly that node, the list well formed and the node unlinked |
| JsonList.DetachAt | cjson/cJSON.c:2219-2227 | the node at the index, or null and no change |
| JsonList.Insert | cjson/cJSON.c:2259-2286 | inserts in front of the index, or at the end with the same condition as Add |
| JsonList.Replace | cjson/cJSON.c:2288-2335 | replaces exactly that node, in place, also by itself |
| JsonSort.BeforeAsymmetric | cjson/cJSON_Utils.c:83-109 | the comparison never orders two keys both ways |
| JsonSort.NotAfterTransitive | cjson/cJSON_Utils.c:83-109 | "not after" is transitive, with or without case |
| JsonSort.FoldIs | cjson/cJSON_Utils.c:83-109 | without regard to case the capital letters count as the small ones, and nothing else changes |
| JsonSort.BeforeIff | cjson/cJSON_Utils.c:83-109 | one key comes before another if and only if at the first difference it ends or has the smaller byte |
| JsonSort.NeitherIff | cjson/cJSON_Utils.c:83-109 | neither comes before the other exactly if they count as equal; where case matters, exactly if they are equal |
| JsonSort.Compare | cjson/cJSON_Utils.c:83-109 | the loop decides that order |
| JsonSort.Ascending | cjson/cJSON_Utils.c:498-507 | the shortcut is taken only for sorted lists |
| JsonSort.Middle | cjson/cJSON_Utils.c:509-521 | two pointers end at a split with two non-empty halves |
| JsonSort.Split | cjson/cJSON_Utils.c:522-527 | cutting the links gives two chains |
| JsonSort.Take | cjson/cJSON_Utils.c:535-569 | linking the smaller head keeps the merged part in order before all that is left |
| JsonSort.Merge | cjson/cJSON_Utils.c:534-592 | two sorted chains become one with the same nodes |
| JsonSort.SortList | cjson/cJSON_Utils.c:484-593 | the same nodes, the keys ascending along the next chain, every non-head prev its predecessor; terminates |
| JsonPointer.EncodedLength | cjson/cJSON_Utils.c:157-170 | the length the escaped key will have |
| JsonPointer.EncodeInto | cjson/cJSON_Utils.c:173-196 | the escaped key and its terminator |
| JsonPointer.EncodeInjective | cjson/cJSON_Utils.c:173-196 | different keys have different escaped forms |
| JsonPointer.MatchesEncoded | cjson/cJSON_Utils.c:120-154 | a key matches a pointer's next token if and only if the token is its escaped form |
| JsonPointer.ComparePointers | cjson/cJSON_Utils.c:120-154 | the loop over two cursors decides that match |
| JsonPointer.DecodeIndex | cjson/cJSON_Utils.c:274-299 | accepts exactly the empty token, "0", and a digit other than '0' followed by nothing below '0', and computes the index function |
| JsonPointer.IndexMeetsGrammar | cjson/cJSON_Utils.c:274-299 | takes exactly the array indices of RFC 6901, section 4, if and only if the token is not empty and has no character above '9' behind a digit other than '0', with none below '0' |
| JsonPointer.NoIndices | cjson/cJSON_Utils.c:274-299 | inputs it takes wrongly: the empty token as 0, "1;" as 21, "1a" as 59 |
| JsonPointer.IndexValue | cjson/cJSON_Utils.c:274-299 | an array index of that grammar is the printed form of a number and read as that number |
| JsonPointer.IndexReadsDigits | cjson/cJSON_Utils.c:274-299 | every printed index is read back |
| JsonPointer.MemberFound | cjson/cJSON_Utils.c:301-346 | with distinct keys the escaped key leads to its own member |
| JsonPointer.ItemStep | cjson/cJSON_Utils.c:301-346 | a printed index leads to the element of that number, past the end to nothing |
| JsonPointer.MemberStep | cjson/cJSON_Utils.c:301-346 | an escaped key leads to the first member that has it |
| JsonPointer.LeadsNowhere | cjson/cJSON_Utils.c:301-346 | a token that is the escaped form of no key leads to nothing, nor does one that passes for no index, or one behind a leaf |
| JsonPointer.EscapeSamples | cjson/cJSON_Utils.c:173-196 | three keys escaped as RFC 6901, section 3, says |
| JsonPointer.PointerLeadsBack | cjson/cJSON_Utils.c:198-346 | a pointer is built exactly for the items of the tree, and following it returns that very item, for any keys |
| JsonPointer.Follow | cjson/cJSON_Utils.c:301-346 | the loop computes the lookup function |
| JsonPointer.FindPointer | cjson/cJSON_Utils.c:198-259 | the recursive search builds that pointer in buffers that are large enough |
| JsonPointer.KeyStep | cjson/cJSON_Utils.c:240-249 | slash, escaped key and path fill the buffer allocated exactly |
| Md5.FoldJoins | check/md5.c:21-54 | folding the block function over joined texts is folding twice |
| Md5.DecodeUndoes | check/md5.c:69-96 | decoding undoes encoding, for any sequence of 32-bit words |
| Md5.EncodedAt | check/md5.c:69-82 | byte k of encoded words: the lowest byte of each word first |
| Md5.DecodedAt | check/md5.c:83-96 | word k of a text: the lowest byte first |
| Md5.Decode | check/md5.c:83-96 | the loop computes the decoded words |
| Md5.PaddingShortest | check/md5.c:56-67 | the padding is the shortest that leaves room for the count on a block boundary |
| Md5.PaddedIs | check/md5.c:56-67 | RFC 1321, sections 3.1 and 3.2: the message, the byte 0x80, zeros, and the length in bits modulo 2^64 in eight bytes, the lowest first, on a block boundary |
| Md5.InitialBytes | check/md5.c:11-20 | RFC 1321, section 3.3: the sixteen bytes of the initial state |
| Md5.DigestAt | check/md5.c:56-67 | RFC 1321, section 3.5: each byte of the digest by the word and the byte of it |
| Md5.OneBlock | check/md5.c:36-67 | a message of at most 55 bytes is one call of the block function |
| Md5.CountAdded | check/md5.c:27-34 | two words with a carry hold the bit count modulo 2^64 |
| Md5.EndsIff | check/md5.c:36-47 | the loop over whole blocks ends if and only if the input is shorter than 2^32 - 64 with nothing buffered, or than 2^32 - r with r bytes buffered |
| Md5.FirstTooLong | check/md5.c:40-43 | with nothing buffered 2^32 - 64 bytes are too many, one less is not |
| Md5.MoreBlocks | check/md5.c:36-47 | on those inputs the loop, with its 32-bit index, folds all whole blocks of the input |
| Md5.Encode | check/md5.c:69-82 | words in order, the lowest byte first |
| Md5.Context.Update | check/md5.c:21-54 | on exactly the inputs it ends on: state, count and buffer are those of the message so far plus the input |
| Md5.Context.Pad | check/md5.c:61-65 | padding and count end on a block boundary |
| Md5.Context.Final | check/md5.c:56-67 | the digest is the fold over the padded message |
| Md5.Hash | check/md5.c:11-67 | for every way of cutting a message into pieces MD5Update ends on, the digest is that of the whole message |
| Md5.CutTwice | check/md5.c:11-67 | two such ways of cutting one message give one digest |

## Left out

- FastLzDecompressor.DecompressLevel: a malformed stream that ends inside a match is `Overread`, where the source reads past its input; 32-bit overflow of a hostile length is not modelled.
- FastLZ: the word-wise copies used where unaligned access is allowed, and failure to allocate the hash table. At level 2 the source hashes one byte past an input that ends with a far match; the model reads 0 there.
- QuickLz.DecompressCore: a malformed packet on which a check passes although a match ends past the destination is `Overrun`; only its own outcome is specified.
- QuickLZ: levels 1 and 2, streaming and the word-wide copies.
- KvDb.Database.SetKv: no other stored key shares the name's 16-bit CRC; a null value, which deletes, is `DeleteKey`; for a name of exactly 64 bytes nothing is said of the states on the way and of the cache afterwards.
- KvDb.Database.Run: sets of names of exactly 64 bytes are excluded; what one such set does is said by `SetKv`, `LongNameLost` and `LongNameTwice`.
- KvDb.Database.Perform: the same exclusion.
- KvDb.Database.DoGc: when a record finds no room, or has a name of 64 bytes, nothing is said of the cache, which may then point to a formatted sector.
- KvRecovery.Load: starts from a state in which the collections that were cut can be completed, with at most one record pending, and with names shorter than 64 bytes; what happens where a collection cannot be completed is said by `GcCutKeepsIff`.
- KvAgain.GcRetrievable: for a second cut with a record pending and two or more EMPTY sectors it only says that a live copy of every entry is there; loading then scans without collecting first, with two records pending, which is not modelled further.
- KvAgain.CollectResumed: where more than one sector is EMPTY at the cut, loading does not take the collection up, so nothing is said.
- KvRestart.CutAndRestart: a cut in a copy written by a collection, where it leaves a collection that cannot be completed, is left to `GcCutKeepsIff`, `LastCopyKeepsIff` and `RoomyFits`.
- Key-value store: the search for magic words and the record CRC (a record carries a flag instead; a torn header reads as an ERR_HDR slot), sector addresses cached for speed, sectors combined for large records, a sector erased but not yet given its header (formatting is one step), errors from the flash driver, locks, default values and automatic update, two PRE_DELETE records left by a second set after loading gave up.
- TsDb.Database.Reopen: write granularity 1 and crash-free runs only; at coarser granularity a status table longer than the gap left can be misread. The branch for an EMPTY current sector behind a used one belongs to power cuts.
- TsDb.Database.Iterate: the callback that stops the iteration is left out.
- Time series store: power cuts, the second end record of a sector being written only after the first was cut, 64-bit times, the clean and option commands; the clock is a parameter.
- JsonDocuments.AcceptsIff: numbers are integers of at most fifteen digits; for other number text the parser's outcome is `Beyond`. Floating point, locale and negative zero are left out.
- JsonPrinter.Print: allocation never fails; raw items, references, missing strings and the initial size of cJSON_PrintBuffered are left out.
- JsonParser.Parse: works on a C string with its terminator; cJSON_ParseWithLength on other buffers is left out. Values are built as sequences; the operations on lists of nodes are modelled separately.
- JsonList.Replace: the freeing of the replaced item is left out, as is cJSON_Delete everywhere.
- JsonSort.SortList: says nothing of the order among equal keys, nor of the head's prev, which the source leaves stale.
- JsonDocuments.StrictProper: that the bytes of a string are well-formed UTF-8 is not asked; neither the printer nor the parser looks.
- JsonPointer.Follow: the case-sensitive lookup only; an index does not wrap around at the width of size_t.
- Md5.Context.Update: an input on which the source's loop does not end is excluded, by the exact condition of `EndsIff`.
- MD5: the block function is a parameter.
- JSON patches, merge patches, cJSON_Minify and decode_pointer_inplace: their treatment of escapes, case or quotes supports no clean general statement.
- The SHA-512 of check/, firmware transfer, ring buffer, logging, CRC tables, buttons, Modbus and shell: device plumbing or members that would add nothing hard.
