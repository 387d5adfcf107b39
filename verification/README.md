# Coordinate correction daemon, verified model

The daemon turns Baidu coordinates into GPS coordinates. At start it loads a table of offsets into a
two-level index. Phones send it requests in any number of pieces; each connection collects its text,
extracts a serial, a checksum and two coordinates, and hands its descriptor to a pool of workers. A
worker looks up the offset, stores the corrected point and forwards the request. This project models
the parts of that path where something can go wrong, and the algorithms in its support code and in the
connector headers it is built with, in Dafny 4.11.

| files | what they hold |
|---|---|
| `Common.dfy`, `CStrings.dfy` | what several modules share; C strings in buffers |
| `ClientProtocol.dfy`, `ClientRuns.dfy`, `ClientCorrections.dfy` | event loop and workers around the shared client map, as a step relation; what holds in all its runs; the same over a loaded table |
| `RequestText.dfy`, `RequestChunks.dfy`, `RequestFeeds.dfy` | what receive and parse do, one chunk, whole conversations |
| `RequestPrint.dfy`, `RequestReads.dfy`, `RequestTrips.dfy` | printed requests, what is read of them exactly, printing and receiving |
| `RequestPlaces.dfy`, `RequestParser.dfy` | the connection object and its in-place scanning loops, proved against the former |
| `OffsetKeys.dfy`, `OffsetSlots.dfy`, `OffsetIndex.dfy`, `OffsetLoads.dfy`, `OffsetColumns.dfy` | coordinate keys, one latitude's array, the whole index, on values; when loading keeps the first-wins table; corrections read off the columns of the table |
| `OffsetArray.dfy`, `OffsetLoader.dfy`, `CorrectWorker.dfy` | the array object, the paged loader and the worker's correction, proved against the former |
| `Checksum.dfy`, `Utf8Units.dfy` | the Internet checksum and the UTF-8 conversions |
| `ConfigText.dfy`, `ConfigFile.dfy` | the key=value file: reading, writing, and the trims done in the line buffer |
| `TrieWords.dfy`, `TrieSearch.dfy` | Aho-Corasick search over suffixes, and the automaton step on trie nodes |
| `AtomicCells.dfy` | compare-and-swap loops against the one-step mutex bodies |
| `TrailingSpace.dfy` | the word-at-a-time trailing space skip |

`dafny verify dfyconfig.toml` checks the whole project.

## How the model treats the code

The code is modelled as it stands. Where it leaves its evident intent, the model keeps the behaviour, and
a lemma says exactly when the intent is met:

- `CXArray::append` loses its largest entry when a key below the first is offered, stores a second copy of
  the largest key, and writes past a full array. `AppendBehavesExactlyWhenAccepted` gives the condition.
- `CXArray::getGpsxy` computes its direct probe without a range test and returns an unset point for an
  unknown longitude. Both are outcomes of `LookupOf` and `Correct`.
- `chang2uint` drops the dot, so a number with fewer than two decimals gets too small a key.
  `KeyIsTruncation` gives the condition.
- `checksum` wraps its 32-bit accumulator. `CorrectExactlyWithoutOverflow` gives the condition.
- `parse` drops text that does not hold the whole keyword. `LostExactlyWhenNoChunkHoldsKeyword` gives the
  condition.
- A value written to the configuration file comes back without its trailing blanks, and not at all as
  written when it holds a newline or does not fit a line. `WriteThenReadExactly` gives the condition.
- `ac_trie_next` looks only at the leaf mark of the state it reaches, so it misses a shorter stored word
  that ends at the same place. `CompleteExactlyWhenMarked` gives the condition.
- `parse` looks for the end of a coordinate past the end of the text. A request that ends with a coordinate
  and nothing behind it is read whole only when a space or an ampersand is left over in the buffer soon enough
  behind the terminator, for the copy is then cut off at the terminator; otherwise it is served with the old
  value of that coordinate. The example in src/CClient.cpp:104, which is just long enough, loses its second
  coordinate on a new connection (`ExampleLosesY`) and keeps it after a chunk of blanks
  (`ExampleAfterBlanks`). `LastPairExactly` and `PrintThenReceive` give the condition.
- A served request does not reset the offset, so the next request on the connection is read behind the text
  that was carried over for the last one (`ServedStillCarries`), and a key that text holds is read there
  (`NextSerialMisread`). `NextRequestExactly` gives the condition.
- A NULL column drops the rest of its page, not of the table, so with NULLs the page size matters: `RowsRead`
  is what is read, `AllRowsRead` says when it is everything.
- The test of the client's status before it is forwarded always passes, for the correction before it, under
  the same lock, has set the status; the protocol leaves the status out.
- A worker forwards what the client holds when it is served. Two requests on one connection before the
  workers come mean the second one forwarded twice and the first one never (`LatestForwardedTwiceHappens`).
- A longitude key of 0 finds the padding of an array that is not full and so shifts nothing (`Shift`).
- Descriptors refused because the map is full stay open for ever (`RefusedStaysOpen`).
- A read event looks its client up and then reads through the pointer, both without the lock. It can meet a
  client that is being deleted, or that has been deleted and erased in between, also between recv and parse
  (`LookupFindsDeletedExactly`, `ReceiveMeetsDeletedExactly`).
- A worker fetches the descriptor of the client it has forwarded after giving the lock back. When that client
  has been killed meanwhile and its descriptor reused, the worker kills the new client
  (`KillsItsClientExactly`).
- Overlapping `memcpy` and `strcpy` are read as `memmove`. `strtrimr` tests the character before its bound,
  so on a blank line it looks at the byte before the buffer; that byte does not influence the result and
  the model tests the bound first.
- Reads and writes outside a buffer, and failing asserts, are outcomes of their own (`Dead`, `Crashed`,
  `OutOfRange`, `Overrun`, a `fault` result), never excluded by a precondition.

Parameters stand for what the model cannot see: the chunks that `recv` delivers, the descriptors that
`accept` returns, the C library's `atof`, the rows of the query, and the schedule of the threads.

## Model

| member | source | states |
|---|---|---|
| ClientProtocol.StepKeepsCore | src/CclientManager.cpp:67-108 | every step of the event loop and of any worker keeps lock discipline, map, client, hand-over and open-descriptor invariants |
| ClientRuns.StepKeepsHistory | src/CclientManager.cpp:264-363 | every step keeps pushed = popped + message list, each worker's descriptor the last one that worker popped, and what a live client holds and what is forwarded the latest complete request of the same object |
| ClientRuns.RunsKeepInv | src/CclientManager.cpp:67-363 | all invariants hold in every state of every run, for any number of workers and any schedule |
| ClientRuns.EveryRunIsSafe | src/CclientManager.cpp:115-130 | the map never exceeds the limit though it is tested outside the lock; keys are open descriptors of live clients except while being killed; no double delete; an insert never meets its own key |
| ClientRuns.KillClosesOwnDescriptor | src/CClient.cpp:65-78 | closing under the lock always closes the descriptor the entry itself owns, whatever descriptor a worker has fetched |
| ClientRuns.EveryRunForwardsParsedRequests | src/CclientManager.cpp:318-363 | messages leave in the order they came, one for each complete parse; a forward by a worker carries serial and coordinates of the latest complete parse of that very object at that time, which came under the last descriptor that this worker had popped |
| ClientRuns.EveryWorkerHoldsWhatItTook | src/CclientManager.cpp:299-322 | in every run a worker's descriptor is the last one it popped, and INVALID_SOCKET while it has popped none |
| ClientRuns.EveryTurnServesWhatWasTaken | src/CclientManager.cpp:338-357 | every turn under the lock forwards the live client that the map has under that descriptor, once and with what it holds, if it has a serial, and nothing otherwise |
| ClientRuns.TwoServedInOrder | src/CclientManager.cpp:318-357 | a run with messages of two connections in the list: the first worker serves the first one, the next worker the other |
| ClientRuns.LatestForwardedTwiceHappens | src/CclientManager.cpp:318-357 | a run in which two workers forward the second of two requests and nobody the first |
| ClientCorrections.EveryForwardIsByTable | src/CclientManager.cpp:347-357 | in every run over the index loaded from a loadable table, every forward carries the latest complete request of its client, found under the descriptor its worker popped, and its point is the table's correction of the two strings, or unset exactly when the table has no offset for them |
| ClientCorrections.EveryForwardIsByRow | src/CclientManager.cpp:347-357 | when the two strings have the keys of a row, the forwarded point is the first coordinate minus the row's third column and the second minus its fourth |
| ClientCorrections.UnsetIsForwarded | src/Ccorrectit.cpp:51-80 | a point the correction never sets is forwarded with any value, in a run |
| ClientRuns.LookupFindsDeletedExactly | src/CclientManager.cpp:282-288 | in every run the unlocked lookup hands on a client unless the entry is missing or nulled, and the client is deleted if and only if the lock holder has deleted it and not yet nulled the entry |
| ClientRuns.ReceiveMeetsDeletedExactly | src/CclientManager.cpp:288-290 | in every run, when the read goes on to recv and then to parse, its client is deleted if and only if the entry is erased or being killed; otherwise it still is the client of that descriptor |
| ClientRuns.LookupOfDeletedHappens | src/CclientManager.cpp:282-293 | a run whose lookup hands on a deleted client |
| ClientRuns.ReceiveOfErasedHappens | src/CclientManager.cpp:282-293 | a run in which a whole kill fits between lookup and receive |
| ClientRuns.ParseOfErasedHappens | src/CClient.cpp:87-100 | a run in which a whole kill fits between recv and parse |
| ClientRuns.FailedReceiveCallsKill | src/CClient.cpp:84-98 | in every run a failed recv calls a kill for the client read, by the descriptor looked up while it is alive |
| ClientRuns.FailedReceiveHappens | src/CClient.cpp:84-98 | a run in which a broken connection is deleted, erased and closed |
| ClientRuns.KillsItsClientExactly | src/CclientManager.cpp:361-363 | in every run the kill of a worker, or of a failed recv, deletes the client it is meant for if and only if nobody has deleted it yet, and otherwise the client that has come under the descriptor, if any |
| ClientRuns.WorkerKillsAnotherHappens | src/CclientManager.cpp:361-363 | a run in which it kills a new connection that reused the descriptor |
| ClientRuns.RefusedStaysOpen | src/CclientManager.cpp:115-130 | a descriptor refused because the map was full stays open in every later state |
| ClientRuns.RefusedHappens | src/CclientManager.cpp:115-130 | a run that refuses a descriptor |
| RequestText.ReceiveKeepsValid | src/CClient.cpp:84-148 | carried text is at most IN_DATA_LEN+5 long, the window is never empty, a nonzero offset means the buffer starts with the keyword, and the values stored are C strings |
| RequestFeeds.FeedKeepsValid | src/CClient.cpp:84-278 | the same over every conversation |
| RequestText.MatchIsLower | src/CClient.cpp:135-138 | a keyword is matched by exactly the texts that are the keyword once their capital letters are made small |
| RequestText.FirstIsFirst | src/CClient.cpp:133-278 | a keyword scan stops at the first such occurrence or at the end |
| RequestText.MatchBeforeTerminator | src/CClient.cpp:135-138 | no keyword occurrence reaches over the terminator |
| RequestChunks.MatchInText | src/CClient.cpp:135-138 | a keyword comparison depends only on the text before the terminator, not on what is left behind it |
| RequestChunks.WholeTextParses | src/CClient.cpp:152-267 | parsing a text that holds its four values gives exactly these values, whatever stands behind it in the buffer |
| RequestChunks.ChunkDropped | src/CClient.cpp:274-278 | text without the keyword changes nothing but the buffer |
| RequestChunks.ChunkCarried | src/CClient.cpp:141-148 | a short text is carried over from its keyword on and terminated, the buffer behind it and everything else stay |
| RequestChunks.FilledIs | src/CClient.cpp:87-125 | recv and the terminator leave the carried text, the chunk, a NUL and then the old contents of the buffer |
| RequestChunks.ChunkParsed | src/CClient.cpp:149-271 | a long enough text is parsed from its keyword on, whatever is carried over and whatever it holds |
| RequestChunks.ChunkServedExactly | src/CClient.cpp:149-271 | it gets status 1 and one notification if and only if the serial, md5 and xbaidu keys are there and no copy leaves the buffer; then the values are the C strings of 15 and 32 characters behind their keys and the coordinates before their ends, an endless coordinate or a missing ybaidu keeps its old value, and the carried text stays |
| RequestChunks.ChunkRead | src/CClient.cpp:149-271 | with the four values inside, these are the values read |
| RequestFeeds.ChunksServeAsAtOnce | src/CClient.cpp:84-278 | a request fed in any chunks, keyword inside one and only the last one completing it, gives the same values, status and single notification as fed at once |
| RequestFeeds.PiecesServeAsAtOnce | src/CClient.cpp:84-278 | the same on a connection that still carries text |
| RequestFeeds.ServedStillCarries | src/CClient.cpp:268-270 | after a request served in several chunks the connection still carries its text before the last chunk |
| RequestFeeds.LostExactlyWhenNoChunkHoldsKeyword | src/CClient.cpp:133-278 | for every deliverable sequence of chunks, nothing comes of it if and only if no single chunk holds the keyword |
| RequestFeeds.CutInsideKeywordIsLost | src/CClient.cpp:133-278 | every request cut inside its only keyword is lost |
| RequestPrint.KeyFound | src/CClient.cpp:152-264 | in any order of the pairs, with any tail and the keys spelled in any mixture of cases, a key is first found at its own pair |
| RequestReads.PrintedReadExactly | src/CClient.cpp:152-267 | behind any carried text and before any left-over buffer, the C strings stored are the printed values if and only if each key is not in the carried text or has the same value there, and each coordinate is ended, or cut off by the terminator before a left-over end, or not ended and equal to the old value |
| RequestTrips.PrintThenReceive | src/CClient.cpp:84-278 | the same for every order, spelling, tail and chunking: values, status 1 and one notification, if and only if the last receive finds each value |
| RequestTrips.PrintBehindCarried | src/CClient.cpp:84-278 | the same on a connection that still carries text |
| RequestTrips.ClosedRequestIsServed | src/CClient.cpp:84-278 | with both coordinates ended by a pair, a space or an ampersand, every printed request, its keyword and keys in any mixture of cases, is read back |
| RequestTrips.ClosedRequestBehindCarried | src/CClient.cpp:84-278 | also behind carried text without any of the four keys |
| RequestTrips.LastPairExactly | src/CClient.cpp:204-214 | a request with nothing behind it, on any idle connection, is read back if and only if the last pair is the serial or the md5, or a space or ampersand is left over within eleven characters of the value, or none is and the coordinate is the one held before |
| RequestTrips.LastPairDecides | src/CClient.cpp:204-214 | with only zeros behind the text, it is read back if and only if the last pair is the serial or the md5, or its coordinate is the one held before |
| RequestTrips.LastCoordinateKept | src/CClient.cpp:204-220 | otherwise, with only zeros behind the text, it is served with the old value of that coordinate |
| RequestTrips.ExampleLosesY | src/CClient.cpp:103-105 | the source's own example is such a request, just long enough, on a new connection |
| RequestTrips.ExampleAfterBlanks | src/CClient.cpp:103-105 | the same example is read whole after a chunk of blanks that was dropped but stays in the buffer |
| RequestTrips.NextRequestExactly | src/CClient.cpp:84-278 | after a request served in several chunks, the next one is read as printed if and only if what is left of the first does not change a value |
| RequestTrips.NextSerialMisread | src/CClient.cpp:268-270 | behind a text that ends inside its serial, every next request is served with a wrong serial |
| RequestTrips.CutRequestIsSent | src/CClient.cpp:84-278 | every printed request of enough length, with any tail, can be sent at once or cut anywhere behind its keyword before the minimum length |
| RequestChunks.CoordReadExactlyWhenShort | src/CClient.cpp:204-220 | a coordinate is stored as the C string up to its first space or ampersand exactly when one comes within eleven characters; otherwise the old value stays |
| RequestPlaces.ParseFieldsInPlace | src/CClient.cpp:152-267 | scanning the buffer from behind the keyword equals parsing the text that the keyword starts |
| RequestParser.Client.KeywordAt | src/CClient.cpp:135-138 | the comparison chain decides an occurrence, and the last place it reads is not behind the terminator |
| RequestParser.Client.Scan | src/CClient.cpp:154-172 | a scan loop finds the first occurrence |
| RequestParser.Client.CoordEnd | src/CClient.cpp:204-209 | the coordinate loop ends at a space or ampersand or after eleven characters, or leaves the buffer |
| RequestParser.Client.ReadFields | src/CClient.cpp:152-267 | the four copies happen exactly when they stay inside the buffer and all required keys are there, and give the specified values |
| RequestParser.Client.Keep | src/CClient.cpp:141-148 | the text from the keyword on moves to the front, terminated, with the offset its length |
| RequestParser.Client.Parse | src/CClient.cpp:108-281 | the whole new state of the connection after parse |
| RequestParser.Client.Receive | src/CClient.cpp:84-102 | the whole new state after a chunk, and the buffer invariant is kept |
| RequestParser.Client.constructor | src/CClient.cpp:29-58 | a new connection is empty and valid; only the serial is cleared among the values |
| OffsetKeys.Chang2Uint | src/tools.cpp:307-334 | the copying loop computes the key, or overruns its ten bytes |
| OffsetKeys.KeyOfDecimal | src/tools.cpp:307-334 | the key of a decimal is the number of its kept digits, and the buffer overruns exactly when ten or more are kept |
| OffsetKeys.AtoiReads | src/tools.cpp:307-334 | the atoi at its end skips blanks, takes a sign and stops behind the digits |
| OffsetKeys.KeyOfNegative | src/tools.cpp:307-334 | a minus takes one place of the buffer and the key is the negative number modulo 2^32 |
| OffsetKeys.SecondDotRestarts | src/tools.cpp:307-334 | a second dot within the two decimals starts their count again |
| OffsetKeys.KeyIsTruncation | src/tools.cpp:307-334 | the key is 100 times the value truncated if and only if there are two decimals or the value is zero |
| OffsetKeys.OneDecimalExample | src/tools.cpp:307-334 | 12.5 gets the key 125 and not 1250 |
| OffsetKeys.ParsedCoordinateFits | src/CClient.cpp:204-214 | a number parse accepts overruns the key buffer exactly when it is ten digits without a dot |
| OffsetKeys.KeyMonotone | src/tools.cpp:307-334 | keys rise with the value |
| OffsetKeys.SameKeyExactlyInSameCell | src/dbdo.cpp:161-171 | a coordinate has a cell's key if and only if it lies in that 0.01 cell |
| OffsetSlots.AppendBehavesExactlyWhenAccepted | src/CXArray.cpp:34-109 | an append keeps the array sorted and first-value-wins if and only if the key is acceptable |
| OffsetSlots.AppendsAreFirstWins | src/CXArray.cpp:34-109 | any sequence of acceptable appends keeps the array sorted and makes its contents the first-value-wins map |
| OffsetSlots.HeadInsertBreaks | src/CXArray.cpp:61-69 | a key below the first is put in front of the others and always loses the largest entry and the order |
| OffsetSlots.SecondLargestKept | src/CXArray.cpp:92-100 | a second copy of the largest key is stored behind the first one |
| OffsetSlots.FullArrayOverruns | src/CXArray.cpp:71-90 | a key between those of a full array is written past its end if and only if it is new |
| OffsetSlots.HeadInsertExample | src/CXArray.cpp:61-69 | after 7200 and 7201, offering 7100 breaks the order |
| OffsetSlots.FullArrayKeepsOut | src/CXArray.cpp:92-107 | a new largest key offered to a full array changes nothing |
| OffsetSlots.LookupAnswers | src/CXArray.cpp:126-157 | every lookup in a sorted array answers exactly by the stored entries: the offset, the zero padding for key 0, unset, or a probe outside the array |
| OffsetSlots.AnswerUnique | src/CXArray.cpp:126-157 | that answer is unique |
| OffsetSlots.SlotIsEntry | src/CXArray.cpp:130-149 | probe and scan can only select the same entry |
| OffsetSlots.ProbeHitsExactlyOnRuns | src/CXArray.cpp:130-137 | the probe hits if and only if every key from the first to the sought one is stored |
| OffsetArray.XArray.Append | src/CXArray.cpp:34-109 | the in-place append has exactly the specified effect, or writes outside the array |
| OffsetArray.XArray.GetGpsxy | src/CXArray.cpp:126-157 | probe and scan give the specified lookup, and when found each coordinate minus its part of the offset |
| OffsetIndex.PagesLoadAsOne | src/dbdo.cpp:134-297 | every table loaded in pages of any size loads as if the rows read were one page, a NULL column dropping the rest of its page |
| OffsetIndex.AllRowsRead | src/dbdo.cpp:134-195 | without NULLs and with a limit not below the number of rows, every row is read, for every page size |
| OffsetIndex.LoadedIndexIsTable | src/dbdo.cpp:134-297 | a table whose rows read are loadable makes an index that holds exactly their offsets, as `RowCorrects` spells out by column |
| OffsetColumns.RowCorrects | src/dbdo.cpp:134-297 | after loading in pages of any size, a point with the latitude and longitude keys of a row becomes first coordinate minus third column, second coordinate minus fourth column, if the row's longitude is within an array's length of the first one of its latitude, and otherwise the probe leaves the array |
| OffsetColumns.AbsentLatitudePasses | src/Ccorrectit.cpp:41-78 | a point whose latitude no row has is left as it is, whatever its longitude |
| OffsetColumns.AbsentLongitude | src/CXArray.cpp:126-157 | a point whose latitude has rows but none with its longitude stays unset, passes through for key 0 if the array has room, or makes the probe leave the array |
| OffsetLoads.LoadsFirstWinsExactly | src/dbdo.cpp:204-258 | after every row the index is the first-wins table of the rows so far, if and only if every row is accepted by the array it meets |
| OffsetLoads.TableLoadsFirstWins | src/dbdo.cpp:134-297 | a table whose rows are accepted loads in pages of any size as its first-wins table |
| OffsetLoads.LoadableAccepted | src/dbdo.cpp:204-258 | the rows of a loadable table are all accepted |
| OffsetIndex.CorrectionFollowsTable | src/Ccorrectit.cpp:41-78 | for every two strings a correction crashes on an overrun, passes through at an absent latitude, subtracts the two offsets of the table from the two coordinates (none for longitude key 0), and is unset or out of range otherwise |
| OffsetIndex.LoadThenCorrect | src/Ccorrectit.cpp:41-78 | the two together, for every page size and any two strings |
| OffsetIndex.ByTableUnique | src/Ccorrectit.cpp:41-78 | the table leaves one possible correction |
| OffsetLoader.Cdbdo.Insert | src/dbdo.cpp:204-286 | a new latitude gets an array of its own and no other array changes |
| OffsetLoader.Cdbdo.Getdb | src/dbdo.cpp:134-297 | the paging loop builds exactly the index whose corrections `RowCorrects` gives by column |
| CorrectWorker.CorrectGps | src/Ccorrectit.cpp:30-80 | the worker stores the two coordinates minus the two offsets that the lookup finds, or the coordinates themselves at an absent latitude, and sets status 2 unless it leaves a buffer |
| CorrectWorker.RequestIsCorrectedByTable | src/Ccorrectit.cpp:30-80 | from the wire to the point: whatever a connection holds after a request in pieces is corrected by the loaded table for its two strings, and these are the printed ones if and only if each value is found |
| Checksum.Compute | src/tools.cpp:281-298 | the result is the complement of the accumulated sum's residue, and the checksum of RFC 1071 unless the accumulator wrapped |
| Checksum.FoldTo16 | src/tools.cpp:294-295 | folding terminates and keeps the value modulo 65535 and its being nonzero |
| Checksum.NormOfSum | src/tools.cpp:281-298 | the one's-complement sum of section 1 of RFC 1071 is the residue of the plain sum |
| Checksum.CorrectExactlyWithoutOverflow | src/tools.cpp:281-298 | for every buffer size an int can give, the result meets RFC 1071 if and only if the words sum to less than 2^32 |
| Checksum.NoOverflow | src/tools.cpp:281-298 | up to 65537 words cannot overflow |
| Checksum.OverflowExample | src/tools.cpp:281-298 | 65538 words of ones give 1 in place of 0 |
| Checksum.SelfCheck | src/tools.cpp:281-298 | an even buffer followed by the checksum the code gives it checks to 0, also when the accumulator wraps |
| Checksum.OddIsPadded | src/tools.cpp:281-298 | an odd buffer has the checksum of the buffer with a zero byte behind it |
| Checksum.OrderIndependent | src/tools.cpp:281-298 | reordering words changes neither the code's value nor that of RFC 1071 |
| Checksum.ByteOrderIndependent | src/tools.cpp:281-298 | swapping the bytes of all words swaps the checksum, and the code's value as long as neither sum wraps |
| Utf8Units.Utf8ToUnits | src/tools.cpp:227-257 | the decoding loop gives the decoded units, their number and a terminating zero, or reads past a cut-off character |
| Utf8Units.DecodeInverse | src/tools.cpp:227-257 | any mixture of one-, two- and three-byte forms of section 3 of RFC 3629 decodes to its units |
| Utf8Units.EncodeThenDecode | src/tools.cpp:227-279 | encoding any units one by one and decoding gives them back, three bytes each |
| Utf8Units.ShortestThenDecode | src/tools.cpp:227-257 | the shortest forms decode |
| Utf8Units.SingleDecoderAgrees | src/tools.cpp:259-267 | the single-character decoder agrees with the three-byte branch |
| Utf8Units.SingleRoundTrip | src/tools.cpp:259-279 | the single-character decoder inverts the encoder |
| ConfigFile.Strtrimr | src/tools.cpp:20-27 | overwriting trailing blanks with terminators leaves the right-trimmed string |
| ConfigFile.Strtriml | src/tools.cpp:31-42 | moving the rest to the front leaves the left-trimmed string |
| ConfigFile.Config.GetItemFromLine | src/tools.cpp:55-74 | the map gains the line's entry unless its key is there; a fault exactly without an equals sign |
| ConfigFile.Config.Fgets | src/tools.cpp:87-90 | the buffer gets the text through the next newline, at most 398 characters |
| ConfigFile.Config.FileToItems | src/tools.cpp:78-95 | the loop fills the map as specified |
| ConfigFile.Config.WriteConfValue | src/tools.cpp:115-144 | the file becomes the print of a map with the keys that were there, this key's new value if it was one of them and the old value of every other key; reading it again gives that map if and only if the key was absent or the value fits its line |
| ConfigText.FirstEntryWins | src/tools.cpp:55-95 | a key has the value of the first line with it, and only then |
| ConfigText.LoadIsStorable | src/tools.cpp:55-95 | whatever is read from a file can be stored in one |
| ConfigText.PaddedLineRead | src/tools.cpp:20-74 | any of the six white space characters around a key=value line are ignored |
| ConfigText.CommentSkipped | src/tools.cpp:55-66 | a line that starts with a number sign behind white space is skipped |
| ConfigText.LoadWritten | src/tools.cpp:55-95 | a written line is read as its key and right-trimmed value, also when it fills the line buffer |
| ConfigText.RoundTripExactlyWhenStorable | src/tools.cpp:78-144 | a map survives writing and reading if and only if all its entries can be stored |
| ConfigText.WriteThenReadExactly | src/tools.cpp:115-144 | writing a value and reading again gives what was written if and only if the key is absent or the value fits its line: then no key is gained or lost, every other key has its old value, and this key the new one |
| ConfigText.WriteTrims | src/tools.cpp:115-144 | a value of one line comes back without its trailing blanks, beside every other entry unchanged |
| ConfigText.TrimLeftDropsBlanks | src/tools.cpp:31-42 | what the left trim drops is blank |
| TrieWords.LongestStep | mysql-connector-c-6.0.2-linux-glibc2.3-x86-32bit/include/my_trie.h:82-92 | the longest suffix that is a path, after one more character, depends only on the former one |
| TrieWords.LongestFail | mysql-connector-c-6.0.2-linux-glibc2.3-x86-32bit/include/my_trie.h:89-90 | following a fail link does not lose the longest suffix |
| TrieWords.ReportIsLongestWord | mysql-connector-c-6.0.2-linux-glibc2.3-x86-32bit/include/my_trie.h:68-92 | a nonzero report is the length of the longest stored word that ends there |
| TrieWords.CompleteExactlyWhenMarked | mysql-connector-c-6.0.2-linux-glibc2.3-x86-32bit/include/my_trie.h:68-92 | every end of a stored word is reported, in every text, if and only if each path that ends with a stored word is itself stored |
| TrieWords.MissedWordExample | mysql-connector-c-6.0.2-linux-glibc2.3-x86-32bit/include/my_trie.h:68-92 | a concrete dictionary and text with a missed word |
| TrieSearch.Trie.Goto | mysql-connector-c-6.0.2-linux-glibc2.3-x86-32bit/include/my_trie.h:55-65 | the sibling loop finds the child whose path extends the node's, the root, or nothing |
| TrieSearch.Follow | mysql-connector-c-6.0.2-linux-glibc2.3-x86-32bit/include/my_trie.h:87-90 | the fail loop terminates, since each link shortens the path, and stops at the longest suffix that is a path |
| TrieSearch.AcTrieState.Next | mysql-connector-c-6.0.2-linux-glibc2.3-x86-32bit/include/my_trie.h:82-92 | one character moves the state to the longest suffix of the text that is a path, and returns its leaf mark |
| TrieSearch.AcTrieState.Feed | mysql-connector-c-6.0.2-linux-glibc2.3-x86-32bit/include/my_trie.h:82-92 | the same over every text |
| TrieSearch.ReturnIsStoredWord | mysql-connector-c-6.0.2-linux-glibc2.3-x86-32bit/include/my_trie.h:91-91 | a nonzero return n means that the last n characters form a stored word |
| TrieSearch.Search | mysql-connector-c-6.0.2-linux-glibc2.3-x86-32bit/include/my_trie.h:116-136 | the search finds exactly the stored words |
| AtomicCells.StepRefinesMutex | mysql-connector-c-6.0.2-linux-glibc2.3-x86-32bit/include/my_atomic.h:65-85 | every step of the retry loops either leaves cell and history or is one mutex body |
| AtomicCells.RunsRefineMutex | mysql-connector-c-6.0.2-linux-glibc2.3-x86-32bit/include/atomic/rwlock.h:52-56 | in every run, for any threads and schedule, the history is a sequential run of the mutex bodies with the returned values, each effect inside its call |
| AtomicCells.RetryMeansOthersProgressed | mysql-connector-c-6.0.2-linux-glibc2.3-x86-32bit/include/my_atomic.h:65-76 | a failing compare-and-swap means that the cell has changed through another effect |
| AtomicCells.SoloCall | mysql-connector-c-6.0.2-linux-glibc2.3-x86-32bit/include/my_atomic.h:65-85 | an uninterrupted call ends after its read and one compare-and-swap: add leaves the sum and returns the old value, fas the new value and the old one, store the new value, load the old value |
| AtomicCells.ReturnsLastWrite | mysql-connector-c-6.0.2-linux-glibc2.3-x86-32bit/include/my_atomic.h:65-85 | in every run a value returned is the last one swapped in or stored plus what was added since |
| AtomicCells.CounterRun | mysql-connector-c-6.0.2-linux-glibc2.3-x86-32bit/include/my_atomic.h:65-81 | with adds and loads only, the cell is its start plus the completed adds modulo 2^32 |
| AtomicCells.AddReturnsTotal | mysql-connector-c-6.0.2-linux-glibc2.3-x86-32bit/include/atomic/rwlock.h:52-56 | each add returns the total just before its own effect |
| TrailingSpace.SkipTrailingSpace | mysql-connector-c-6.0.2-linux-glibc2.3-x86-32bit/include/m_string.h:361-385 | alignment split and word steps give the end of the plain byte loop for every buffer, length and alignment |
| TrailingSpace.PlainEndUnique | mysql-connector-c-6.0.2-linux-glibc2.3-x86-32bit/include/m_string.h:382-384 | that end is the only one with spaces alone behind it and no space before it |

## Left out

- Sockets, epoll, address lookup, daemonising, syslog, signals and thread wrappers.
- Csender: forwarding is one recorded event, its sockets are not among the modelled descriptors.
- Wake-up liveness: one flag merges notifications, so no claim is made that every queued descriptor is served promptly.
- Exit flags, and failures of allocation, `fopen`, `fcntl` and the query calls.
- killTimeoutClient, which nothing calls.
- The MySQL client API: a query result is a sequence of rows; loading concurrent with lookups is not modelled.
- Rounding: coordinates and offsets are exact reals and `atof` is any function.
- The CLNGMAP form of the index, which is not compiled.
- getMB, getexedir, getnowdate and the string and cast utilities.
- Building and preparing the trie; a prepared trie is a precondition, as `ac_trie_next` has it. Trie nodes are records in one value, with indices for pointers, so no node is updated in place.
- Threads as objects: client manager and atomic cells are step relations, not classes, since the claims are about interleavings.
- Memory reuse after a client is deleted: when the event loop reads such a client, recv fails on the descriptor its destructor left, and the descriptor that a worker fetches from it may be any; nothing else is said of what follows.
- A correction that reads outside a buffer: no worker step serves such a client, and what the process does then is not modelled.
- Atomic operations of other widths than 32 bits.
- `unsigned long` of other widths than 32 bits.
- Bytes over 127 given to `isspace`.
