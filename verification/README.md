# Verified model of ASAP::O

This project models the core of the ASAP::O receiver and of the protocol code it is built on, and
proves what that code is for. It is written in Dafny 4.11; `dafny verify dfyconfig.toml` checks it.

## What is modelled

The receiver:

- **The data cache** (`CacheModel`, `CacheRuns`, `DataCacheObject`): one ring of bytes, a deque of
  slot records with lock counts, eviction of a prefix, roll-back on refusal and lookup by id. Runs
  interleave any number of producers and readers; the mutex makes each call one step, and receiving
  the data of a request is a grant, writes under its handle, and a release. The ring
  invariant does not hold for all sizes: `AllocateBoundary` says exactly when an allocation breaks
  it, and `CollisionsExactly` for which limits on sizes some run does. Locks are safe for all sizes,
  contents for sizes of at most half the ring, rounded up, or all of it.
- **Ingest** (`Ingest`, `IngestHandlers`, `IngestOutcomes`): file store and database are maps, each store operation of
  a request is a step, requests interleave, any operation may fail, and a failed write may leave part
  of a file. Storing the same message again is safe with one exception, which `StepBoundary`
  describes exactly and `FileIsLost` shows: the record check and the overwrite are two operations, so
  an overwrite that fails half-way can truncate a file that another request has stored meanwhile.
  `TransferOutcome` gives the outcome of every single transfer; a request that conflicts with a record
  fails, but under a new name it leaves its file behind (`ConflictsAreRefused`).
- **Sessions** (`RequestChain`, `Session`): the chain of handlers of every request, the cache of
  the authorization with its renewal, and the loop of a connection. Authorizer, clock and the errors
  of other handlers are arbitrary.

The protocol code in `3d_party`:

- **JSON** (`JsonScalars`, `JsonReader`, `JsonInteger`, `JsonNumber`, `JsonLexis`, `JsonGrammar`,
  `JsonWriter`, `JsonRoundTrip`, `JsonObjects`): the recursive and the table-driven reader, the
  writer with its level stack, and the document that is built from events, all with default flags.
  `JsonGrammar` has the grammar of RFC 8259 as trees and shows that the readers accept just that.
- **UTF-8 and UTF-16** (`Utf8`, `Utf8Streams`), **JSON Pointer** (`Pointer`,
  `PointerGrammar`, `PointerObject`) and the **pool allocator** (`Pool`, `PoolRuns`, `PoolObject`).
- **WebSocket** (`WebSocket`, `WebSocketObject`), **MQTT** (`Mqtt`, `MqttObject`), **SHA-1**
  (`Sha1`, with the block transform as a parameter) and the **glob matcher** (`Glob`).

`Bytes` and `Options` hold what several of them share.

Code that updates an object or runs a loop is a class or a method here, proved against functions on
values; the properties are lemmas about those functions, over every input, every reachable state
or every run. A method's contract therefore reads "as the value model does", and the lemmas beside it
say what that is worth.

Choices a reader should know:

- Clocks, random numbers, the authorizer, the base allocator, the outcome of every I/O operation and
  the block transform of SHA-1 are parameters.
- The keep-unlocked distance of the cache is one natural number, the product of its size and ratio.
- Integer widths are written out where the code depends on them: 32-bit counters, counts and
  indexes, the stages of number parsing, the length fields of WebSocket and MQTT, the two-word counter
  of SHA-1. Sums of a cursor and a size, lock counts and sizes of memory are unbounded.
- A stream of bytes that has run out yields zeros, as a memory stream does.
- A closing connection reads no more. An MQTT connection that refuses a login still handles what came
  in the same read, which is why `Mqtt.SplitsAgree` has its condition.
- A `#` of a glob pattern that meets a `#` in the subject is taken literally, so such subjects are not
  always matched; `Glob.PatternsDecided` and `Glob.SubjectsDecided` draw the line.
- The database is taken to store empty metadata as an empty document.
- A file that is empty, or whose name or paths give no folder, ends in error without any store failing;
  `Ingest.RetriesSucceed` has this as its exact condition. Empty messages that store no file succeed.

## Model

| member | source | states |
|---|---|---|
| `CacheModel.AllocateBoundary` | receiver/src/data_cache.cpp:23-37 | From a well-formed ring, a granted allocation of any size above zero leaves it well-formed, and its slots disjoint, if and only if it does not wrap to a size beyond the old cursor with survivors of the previous lap starting both below the size and at or above it: the exact boundary of the early exit of the eviction loop. |
| `CacheModel.EvictsExactly` | receiver/src/data_cache.cpp:99-122 | Eviction is minimal: the last record evicted always overlaps the new slot, and no record that stays does if and only if the allocation is outside the early exit. |
| `CacheModel.EvictsOnlyInTheWay` | receiver/src/data_cache.cpp:102-115 | For every size above zero, the last record evicted overlaps the new slot; without a wrap every evicted record does. |
| `CacheModel.TooCloseExactly` | receiver/src/data_cache.cpp:66-75 | A slot counts as too close exactly when fewer bytes than the keep-unlocked distance bring the cursor, round the ring, to its start. |
| `CacheModel.IdHoldsClock` | receiver/src/data_cache.cpp:59-64 | The high half of an id is the low half of the clock. |
| `CacheModel.WellFormedIsDisjoint` | receiver/src/data_cache.cpp:99-122 | A well-formed deque (survivors of the previous lap in order beyond the cursor, then slots that tile the ring up to the cursor) has pairwise disjoint slots inside the ring. |
| `CacheModel.StopsEarlyCollides` | receiver/src/data_cache.cpp:106-115 | Whenever a wrapping allocation spares a slot that begins at the start of the ring, the new slot overlaps it. |
| `CacheModel.ScanResult` | receiver/src/data_cache.cpp:102-115 | If a stretch of slots intersects the range, with none before it and none right behind it, the loop dooms everything up to the end of that stretch. |
| `CacheModel.HalfRingNeverStopsEarly` | receiver/src/data_cache.cpp:95-122 | Sizes of at most half the ring, rounded up, never meet the early exit. |
| `CacheModel.FittingNeverStopsEarly` | receiver/src/data_cache.cpp:95-122 | From a well-formed ring, neither do sizes of the whole ring. |
| `CacheModel.UnlockedGrantsAll` | receiver/src/data_cache.cpp:99-126 | With nothing locked, every size up to the cache size is granted. |
| `CacheRuns.StepTracks` | receiver/src/data_cache.cpp:39-57 | Each allocation, write, read lock and release keeps the ledger: the live slots are a suffix of all granted ones, numbered consecutively, and each lock count equals the outstanding handles. |
| `CacheRuns.RunsAreLockSafe` | receiver/src/data_cache.cpp:23-135 | In every legal run of any length and any sizes, no slot with an outstanding handle is ever erased and lock counts equal the handles held; so unlocking and receiving act on live slots. |
| `CacheRuns.GrantSparesHeld` | receiver/src/data_cache.cpp:116-120 | An allocation that is granted evicts no slot somebody holds a handle of. |
| `CacheRuns.RefusalChangesNothing` | receiver/src/data_cache.cpp:28-35 | For sizes up to that of the cache, a refusal leaves the whole state as it was and happens only if a slot in the way has an outstanding handle; with no handle outstanding nothing is refused. |
| `CacheRuns.LiveIdsDistinct` | receiver/src/data_cache.cpp:59-64 | Ids of live slots are pairwise distinct in every run with at most 2^32 live slots, for any clock and through wrap-around of the counter. |
| `CacheRuns.FindsTheOwner` | receiver/src/data_cache.cpp:78-93 | Lookup by the id of a live slot finds that very slot. |
| `CacheRuns.GrantAgrees` | receiver/src/data_cache.cpp:39-57 | An allocation outside the early exit leaves the bytes of every other live slot as their owners wrote them. |
| `CacheRuns.CalmRunsAgree` | receiver/src/data_cache.cpp:23-122 | In every run that never meets the early exit, slots stay disjoint inside the ring and each holds the bytes its owner wrote. |
| `CacheRuns.ReadLockIsRight` | receiver/src/data_cache.cpp:78-93 | A read lock that succeeds is on the unique live slot with that id and size, and the bytes it yields are those the owner wrote. |
| `CacheRuns.CacheRefinesMap` | receiver/src/data_cache.cpp:23-122 | Main result: if every size is at most half the ring, rounded up, or all of it, every run refines a map from slots to bytes: slots are disjoint and a read lock returns exactly what the owner of that id wrote. |
| `CacheRuns.RunsSpareTheRest` | receiver/src/data_cache.cpp:23-122 | Main result: after every run of such sizes, the next slot that is granted ends exactly the live slots that overlap it and those granted before one that does. |
| `CacheRuns.GrantEndsExactly` | receiver/src/data_cache.cpp:99-122 | In every state that agrees with its owners, a grant never ends any other slot, and it ends exactly those if and only if it is outside the early exit. |
| `CacheRuns.ReadLocksExactly` | receiver/src/data_cache.cpp:78-93 | A read lock is granted exactly for the id of a live slot with the size asked for that the cursor does not reach within the keep-unlocked distance, and adds one handle on it; otherwise nothing changes. |
| `CacheRuns.CollisionIsReachable` | receiver/src/data_cache.cpp:106-115 | Beyond that bound, a run from the empty cache within the limit on sizes reaches two live slots that overlap. |
| `CacheRuns.CollisionsExactly` | receiver/src/data_cache.cpp:23-122 | Main result, the exact boundary over runs: with sizes from 1 to a limit, two live slots can come to overlap if and only if twice the smaller of the limit and the size of the ring less one is at least the size of the ring plus two. |
| `DataCacheObject.DataCache.constructor` | receiver/src/data_cache.cpp:10-21 | An empty cache whose counter starts between 1 and 100. |
| `DataCacheObject.DataCache.LastToDelete` | receiver/src/data_cache.cpp:99-115 | The loop over the deque finds the end of the doomed prefix, which `CacheModel.EvictsExactly` shows to end with the last record in the way. |
| `DataCacheObject.DataCache.CleanOldSlots` | receiver/src/data_cache.cpp:99-122 | The doomed records, no more than `CacheModel.EvictsExactly` allows, go if and only if none of them is locked; otherwise the deque is untouched. |
| `DataCacheObject.DataCache.AllocateSlot` | receiver/src/data_cache.cpp:23-37 | Returns the place exactly when the value model grants it; a refusal restores the cursor and keeps the deque. |
| `DataCacheObject.DataCache.GetNextId` | receiver/src/data_cache.cpp:59-64 | The next counter in 32 bits, in the low half of the id below the clock. |
| `DataCacheObject.DataCache.GetFreeSlotAndLock` | receiver/src/data_cache.cpp:39-57 | The whole cache becomes the value model after an allocation; the new record is a fresh object, last in the deque and locked once. |
| `DataCacheObject.DataCache.SlotTooCloseToCurrentPointer` | receiver/src/data_cache.cpp:66-75 | Decides whether the cursor will reach the slot within the keep-away distance. |
| `DataCacheObject.DataCache.GetSlotToReadAndLock` | receiver/src/data_cache.cpp:78-93 | Locks exactly the first record with the id when its size fits and it is not too close; otherwise nothing changes, and the caller sees which of the two refusals it was. |
| `DataCacheObject.DataCache.UnlockSlot` | receiver/src/data_cache.cpp:128-135 | Lowers one lock of a record in the deque, never below zero, and changes no other record. |
| `JsonReader.ReadersAgree` | 3d_party/rapidjson/include/rapidjson/reader.h:1883-1916 | Main result: for every text, the table-driven reader with its explicit stack and the recursive-descent reader accept the same texts and report the same events, also those before a rejection. |
| `JsonGrammar.AcceptsTheGrammar` | 3d_party/rapidjson/include/rapidjson/reader.h:520-556 | Main result: both readers accept a text if and only if it is spelled by the grammar of RFC 8259, white space and all, with numbers in range, and then report exactly the meaning of the tree that spells it. |
| `JsonGrammar.TextsAreRead` | 3d_party/rapidjson/include/rapidjson/reader.h:1430-1459 | Every text of the grammar is accepted for what it means. |
| `JsonGrammar.OnlyTextsAreRead` | 3d_party/rapidjson/include/rapidjson/reader.h:520-556 | Whatever is accepted is a text of the grammar up to its end or first NUL: trailing commas, missing colons and the like are refused. |
| `JsonGrammar.FindsItems` | 3d_party/rapidjson/include/rapidjson/reader.h:702-740 | What is read as the items of an array spells items, separated by commas and closed by a bracket. |
| `JsonGrammar.FindsMembers` | 3d_party/rapidjson/include/rapidjson/reader.h:633-700 | What is read as the members of an object spells names, colons and values, separated by commas and closed by a brace. |
| `JsonLexis.SkipsBlank` | 3d_party/rapidjson/include/rapidjson/reader.h:294-303 | Any run of the four white-space characters is skipped to its end. |
| `JsonLexis.FindsBlank` | 3d_party/rapidjson/include/rapidjson/reader.h:294-303 | Nothing but those four is skipped. |
| `JsonLexis.ReadsPieces` | 3d_party/rapidjson/include/rapidjson/reader.h:893-941 | Every string of plain characters, one-letter escapes, \u escapes and surrogate pairs is read as what it means in UTF-8. |
| `JsonLexis.FindsPieces` | 3d_party/rapidjson/include/rapidjson/reader.h:893-941 | Nothing else is read as a string: raw control characters, unknown escapes, bad digits and unpaired high surrogates are refused. |
| `JsonLexis.PairIsUtf16` | 3d_party/rapidjson/include/rapidjson/reader.h:911-918 | A pair of \u escapes stands for the code point whose UTF-16 surrogates they are. |
| `JsonLexis.ReadsNumber` | 3d_party/rapidjson/include/rapidjson/reader.h:1188-1427 | A number in the text with nothing behind it that could belong to it is read as its meaning, or refused if it has none. |
| `JsonReader.ValueSim` | 3d_party/rapidjson/include/rapidjson/reader.h:1431-1457 | From any stack, the table-driven loop that meets a value goes through exactly the events of the recursive call and resumes with the same stack, or gets stuck after the same events. |
| `JsonReader.ArraySim` | 3d_party/rapidjson/include/rapidjson/reader.h:701-745 | The same for an array from its bracket on. |
| `JsonReader.ElementsSim` | 3d_party/rapidjson/include/rapidjson/reader.h:718-742 | The same for the elements of an array, with the element count on the stack. |
| `JsonReader.AfterElementSim` | 3d_party/rapidjson/include/rapidjson/reader.h:727-742 | The same from behind an element: comma, bracket or error. |
| `JsonReader.ObjectSim` | 3d_party/rapidjson/include/rapidjson/reader.h:632-698 | The same for an object from its brace on. |
| `JsonReader.MembersSim` | 3d_party/rapidjson/include/rapidjson/reader.h:650-697 | The same for the members of an object. |
| `JsonReader.MemberValueSim` | 3d_party/rapidjson/include/rapidjson/reader.h:664-697 | The same from the value of a member on. |
| `JsonReader.AfterMemberSim` | 3d_party/rapidjson/include/rapidjson/reader.h:674-697 | The same from behind a member: comma, brace or error. |
| `JsonReader.Transit` | 3d_party/rapidjson/include/rapidjson/reader.h:1700-1845 | A step keeps the stack coherent: a frame for every open container and nothing else, with counts in 32 bits. |
| `JsonReader.ValueIsCoherent` | 3d_party/rapidjson/include/rapidjson/reader.h:1534-1696 | Whatever value the tables accept in a state, the state they lead to fits the stack. |
| `JsonInteger.IntegersAreExact` | 3d_party/rapidjson/include/rapidjson/reader.h:1202-1278 | Main result: for every integer text, an integer event with the exact signed value is reported if and only if the value lies in [-2^63, 2^64 - 1]; otherwise the text becomes a double, or an error when it is too big for one. |
| `JsonNumber.NumbersAreExact` | 3d_party/rapidjson/include/rapidjson/reader.h:1188-1427 | Main result: for every number text the reader stops behind it and reports the integer itself (no fraction, no exponent, 64 bits), else sign, significand and exponent: the value of the integer digits and the fraction digits that count, and the exponent less their number. It refuses a number if and only if its integer part exceeds the largest double or its exponent is above 308 plus that number. |
| `JsonNumber.DecimalsAreExact` | 3d_party/rapidjson/include/rapidjson/reader.h:1287-1404 | If all digits make less than 10^16, none is dropped: a number with a fraction or exponent is the value of all its digits times ten to the exponent less the length of the fraction. |
| `JsonNumber.OnlyNumbersAreRead` | 3d_party/rapidjson/include/rapidjson/reader.h:1198-1384 | What is read as a number is one: digits where digits must stand, no leading zero. |
| `JsonNumber.DroppedIsFine` | 3d_party/rapidjson/include/rapidjson/reader.h:1319-1332 | Fraction digits are dropped only behind a significand of at least 10^16. |
| `JsonNumber.FractionExact` | 3d_party/rapidjson/include/rapidjson/reader.h:1287-1336 | The 64-bit loop and the double loop together take exactly the fraction digits up to the 17th significant one. |
| `JsonNumber.ExponentExact` | 3d_party/rapidjson/include/rapidjson/reader.h:1338-1383 | An exponent is its value; a positive one is refused exactly above 308 plus the fraction digits taken, a negative one loses digits only beyond 214748364. |
| `JsonInteger.DigitsExact` | 3d_party/rapidjson/include/rapidjson/reader.h:1213-1254 | A stage that accumulates digits under its overflow test yields the exact decimal value of the digits it takes, and stops before the first digit that would exceed the limit. |
| `JsonInteger.IntegerStage` | 3d_party/rapidjson/include/rapidjson/reader.h:1202-1278 | The 32-bit, 64-bit and double stages in turn: which stage ends the digits, and that its accumulator is exact. |
| `JsonScalars.TakeNegativeExponent` | 3d_party/rapidjson/include/rapidjson/reader.h:1349-1358 | The accumulator of a negative exponent stays below 2^31 for every text. |
| `JsonWriter.EscapesExactly` | 3d_party/rapidjson/include/rapidjson/writer.h:394-456 | Only quotes, backslashes and control characters are escaped, by letter or as an upper-case \u00XX. |
| `JsonWriter.WriterPrints` | 3d_party/rapidjson/include/rapidjson/writer.h:394-513 | Main result: for every value tree, the writer accepts the events of the tree and puts exactly the recursively defined JSON text, commas and colons coming from the level stack alone. |
| `JsonWriter.WriteValue` | 3d_party/rapidjson/include/rapidjson/writer.h:496-513 | At any point where a value may stand, the events of a value append its separator and its text and raise the count of the enclosing level by one. |
| `JsonWriter.WriteElements` | 3d_party/rapidjson/include/rapidjson/writer.h:496-513 | The elements of an array, with commas before all but the first. |
| `JsonWriter.WriteMembers` | 3d_party/rapidjson/include/rapidjson/writer.h:496-513 | The members of an object, with commas and colons by the parity of the count. |
| `JsonRoundTrip.ReadChars` | 3d_party/rapidjson/include/rapidjson/reader.h:880-941 | Reading an escaped string gives back every character, control characters and NUL included. |
| `JsonRoundTrip.ReadDecimal` | 3d_party/rapidjson/include/rapidjson/reader.h:1187-1428 | Reading the decimal print of a 64-bit integer reports that integer. |
| `JsonRoundTrip.ReadValue` | 3d_party/rapidjson/include/rapidjson/reader.h:1431-1457 | Reading the text of a value, with anything behind it, reports the events of the value and stops right behind it. |
| `JsonRoundTrip.ReadArray` | 3d_party/rapidjson/include/rapidjson/reader.h:701-745 | The same for arrays, with the element count. |
| `JsonRoundTrip.ReadObject` | 3d_party/rapidjson/include/rapidjson/reader.h:632-698 | The same for objects, with the member count. |
| `JsonRoundTrip.ReadPrinted` | 3d_party/rapidjson/include/rapidjson/reader.h:519-551 | The recursive reader accepts every printed document and reports its events. |
| `JsonRoundTrip.BuildValue` | 3d_party/rapidjson/include/rapidjson/document.h:2761-2830 | Fed with the events of a value, the document pushes exactly that value on its stack. |
| `JsonRoundTrip.BuildObject` | 3d_party/rapidjson/include/rapidjson/document.h:2806-2819 | Popping name and value pairs at the end of an object restores its members in order. |
| `JsonRoundTrip.BuildArray` | 3d_party/rapidjson/include/rapidjson/document.h:2821-2830 | Popping the elements at the end of an array restores them in order. |
| `JsonRoundTrip.RoundTrip` | 3d_party/rapidjson/include/rapidjson/writer.h:394-513 | Main result: for every tree of null, booleans, 64-bit integers, arbitrary byte strings, arrays and objects of any depth, printing it and reading the text with either reader into a document gives the same tree. |
| `JsonObjects.Reader.SkipWhitespace` | 3d_party/rapidjson/include/rapidjson/reader.h:296-303 | The loop stops at the position the value model skips to. |
| `JsonObjects.Reader.Consume` | 3d_party/rapidjson/include/rapidjson/reader.h:783-790 | Takes the expected character or nothing. |
| `JsonObjects.Reader.ParseLiteral` | 3d_party/rapidjson/include/rapidjson/reader.h:747-781 | Accepts and reports a literal as the value model does, or leaves an error. |
| `JsonObjects.Reader.ParseHex4` | 3d_party/rapidjson/include/rapidjson/reader.h:793-812 | Four hexadecimal digits to their number, or an error. |
| `JsonObjects.Reader.ParseUnicode` | 3d_party/rapidjson/include/rapidjson/reader.h:896-914 | A `\u` escape, with its surrogate pair, becomes the UTF-8 of its code point. |
| `JsonObjects.Reader.ParseUnit` | 3d_party/rapidjson/include/rapidjson/reader.h:886-940 | One turn of the string loop appends what the value model decodes. |
| `JsonObjects.Reader.ParseString` | 3d_party/rapidjson/include/rapidjson/reader.h:848-876 | The string loop reports the decoded string of the value model and stops behind its quote. |
| `JsonObjects.Reader.Accumulate` | 3d_party/rapidjson/include/rapidjson/reader.h:1213-1254 | A digit loop with its limit test takes the digits and the value of the model. |
| `JsonObjects.Reader.ParseInteger` | 3d_party/rapidjson/include/rapidjson/reader.h:1202-1265 | The integer part in its 32-bit and 64-bit stages. |
| `JsonObjects.Reader.ParseFraction` | 3d_party/rapidjson/include/rapidjson/reader.h:1290-1334 | The fraction: digits kept, digits dropped and the scale. |
| `JsonObjects.Reader.TakeNegative` | 3d_party/rapidjson/include/rapidjson/reader.h:1351-1358 | A negative exponent, stopping its accumulator below 2^31. |
| `JsonObjects.Reader.TakePositive` | 3d_party/rapidjson/include/rapidjson/reader.h:1359-1366 | A positive exponent, or an error as soon as it is too big. |
| `JsonObjects.Reader.ParseExponent` | 3d_party/rapidjson/include/rapidjson/reader.h:1336-1374 | Sign and digits of the exponent. |
| `JsonObjects.Reader.Emit` | 3d_party/rapidjson/include/rapidjson/reader.h:1395-1423 | The event of the number: an integer, negated in two's complement, or a double whose exponent is that of the text less the fraction digits taken, as `JsonNumber.NumbersAreExact` spells out. |
| `JsonObjects.Reader.ParseNumber` | 3d_party/rapidjson/include/rapidjson/reader.h:1187-1428 | All stages together report the number of the value model, which `JsonNumber.NumbersAreExact` gives in digits and lengths. |
| `JsonObjects.Reader.ParseValue` | 3d_party/rapidjson/include/rapidjson/reader.h:1431-1457 | The recursive reader, as it moves its position, reports the events of the recursive definition. |
| `JsonObjects.Reader.ParseArray` | 3d_party/rapidjson/include/rapidjson/reader.h:701-745 | The loop over elements is the recursive definition of an array. |
| `JsonObjects.Reader.ParseObject` | 3d_party/rapidjson/include/rapidjson/reader.h:632-698 | The loop over members is the recursive definition of an object. |
| `JsonObjects.Reader.Parse` | 3d_party/rapidjson/include/rapidjson/reader.h:519-551 | The whole recursive reader, with what may stand around the value. |
| `JsonObjects.Reader.Transit` | 3d_party/rapidjson/include/rapidjson/reader.h:1700-1845 | One step changes position, stack and events as the step of the value model. |
| `JsonObjects.Reader.IterativeParse` | 3d_party/rapidjson/include/rapidjson/reader.h:1883-1916 | The loop with tables and stack ends as the value model of the table-driven reader does. |
| `JsonObjects.Writer.Prefix` | 3d_party/rapidjson/include/rapidjson/writer.h:496-513 | Puts the separator the level asks for and counts the value. |
| `JsonObjects.Writer.WriteString` | 3d_party/rapidjson/include/rapidjson/writer.h:394-463 | The loop puts the quoted and escaped form of the string. |
| `JsonObjects.Writer.String` | 3d_party/rapidjson/include/rapidjson/writer.h:215-219 | A string or a name, after its separator. |
| `JsonObjects.Writer.StartArray` | 3d_party/rapidjson/include/rapidjson/writer.h:245-249 | Opens a level for an array. |
| `JsonObjects.Writer.EndArray` | 3d_party/rapidjson/include/rapidjson/writer.h:251-257 | Closes the level of an array. |
| `JsonObjects.Writer.StartObject` | 3d_party/rapidjson/include/rapidjson/writer.h:227-231 | Opens a level for an object. |
| `JsonObjects.Writer.EndObject` | 3d_party/rapidjson/include/rapidjson/writer.h:237-243 | Closes the level of an object. |
| `WebSocket.Reassembly` | 3d_party/mongoose/mongoose.c:4637-4723 | Main result: for every list of messages, every fragmentation with control frames before, between and behind the fragments, masked or not, any form of the lengths, and every split of the bytes into reads, exactly the messages sent are delivered, in order, nothing is kept back and nothing is read outside the buffer. |
| `WebSocket.FrameExactly` | 3d_party/mongoose/mongoose.c:4664-4720 | One frame in any state, by opcode: 9 is answered with its own payload, 8 and every unknown opcode close the connection, 0, 1, 2, 9 and 10 do not, only a final 0, 1 or 2 delivers a message, and a frame above the limit is not handled. |
| `WebSocket.ClosesExactly` | 3d_party/mongoose/mongoose.c:4687-4697 | Main result: however a stream of frames is cut into reads, the connection closes if and only if some frame is a close frame or has an unknown opcode. |
| `WebSocket.PingsInAnySplit` | 3d_party/mongoose/mongoose.c:4675-4679 | As long as nothing closes the connection, in every split into reads each ping is answered, in order, with its own payload. |
| `WebSocket.UndefinedExactly` | 3d_party/mongoose/mongoose.c:4709-4713 | Handling the frames of a stream reads before the start of the buffer if and only if one of them is an empty final continuation with nothing gathered before it. |
| `WebSocket.SplitsAgree` | 3d_party/mongoose/mongoose.c:4664-4720 | From any state, every split of a stream without a closing frame ends in the same state as one read of it all. |
| `WebSocket.SplitsAgreeExactly` | 3d_party/mongoose/mongoose.c:4637-4723 | For every stream of bytes, all splits into reads make the same calls if and only if every frame behind one that closes the connection is the unfinished first frame of a text or binary message, by the flags of the frames. |
| `WebSocket.DrainTwice` | 3d_party/mongoose/mongoose.c:4664-4720 | Handling frames before or after more bytes arrive comes to the same. |
| `WebSocket.ProcessIsStable` | 3d_party/mongoose/mongoose.c:4559-4588 | Bytes behind a complete frame do not change it. |
| `WebSocket.ProcessEncoded` | 3d_party/mongoose/mongoose.c:4559-4588 | A frame, masked or not, with any form of its length that holds it, is read back with its flags and unmasked payload if its payload is at most 2^30 bytes, and is never complete otherwise. |
| `WebSocket.MaskTwice` | 3d_party/mongoose/mongoose.c:4583-4586 | Masking twice with one key is the identity. |
| `Bytes.XorByBit` | 3d_party/mongoose/mongoose.c:4583-4586 | Masking sets a bit exactly where data and key differ. |
| `WebSocket.FragmentsArrive` | 3d_party/mongoose/mongoose.c:4691-4712 | The fragments of one message, with control frames between them, deliver that message once, at the last fragment. |
| `WebSocketObject.Locate` | 3d_party/mongoose/mongoose.c:4559-4582 | Header and payload lengths of the frame of the value model, or zero when it is incomplete or too long. |
| `WebSocketObject.Connection.Unmask` | 3d_party/mongoose/mongoose.c:4583-4586 | The loop unmasks the payload in place and touches nothing else. |
| `WebSocketObject.Connection.ProcessFrame` | 3d_party/mongoose/mongoose.c:4559-4588 | The frame at the offset is found and unmasked in place exactly once. |
| `WebSocketObject.Connection.Delete` | 3d_party/mongoose/mongoose.c:1781-1788 | Cuts a stretch out of the receive buffer; bytes around it keep their order. |
| `WebSocketObject.Connection.Dispatch` | 3d_party/mongoose/mongoose.c:4664-4698 | The handler calls and replies of one frame, and whether it closes the connection; `WebSocket.FrameExactly` spells both out by opcode. |
| `WebSocketObject.Connection.Store` | 3d_party/mongoose/mongoose.c:4700-4718 | What is left of a frame in the buffer: a fragment gathered behind its first flags byte, a finished message handed over and removed. |
| `WebSocketObject.Connection.OnRead` | 3d_party/mongoose/mongoose.c:4637-4723 | Buffer, offset, events and closing flag after a read are those of the value model, about which `WebSocket.Reassembly`, `ClosesExactly` and `PingsInAnySplit` speak. |
| `WebSocketObject.MakeHeader` | 3d_party/mongoose/mongoose.c:4590-4616 | Writes the header of a final frame with the shortest form of its length. |
| `WebSocketObject.Connection.Send` | 3d_party/mongoose/mongoose.c:4626-4636 | Sends bytes that are the encoding of one final frame, so the receiver reads the payload back. |
| `WebSocketObject.Connection.MaskTail` | 3d_party/mongoose/mongoose.c:4618-4624 | Masks the last bytes of the send buffer with the key before them and nothing else. |
| `Mqtt.SplitsAgree` | 3d_party/mongoose/mongoose.c:2276-2315 | Main result: every split of a stream into reads delivers all its packets if and only if nothing follows a refused login in it. |
| `Mqtt.RefusalCuts` | 3d_party/mongoose/mongoose.c:2290-2299 | A packet behind a refused login is lost when a read ends between the two: the split that shows it. |
| `Mqtt.TakenAppend` | 3d_party/mongoose/mongoose.c:2279-2312 | Taking packets before or after more bytes arrive comes to the same; behind a malformed packet nothing is taken. |
| `Mqtt.PacketIsTight` | 3d_party/mongoose/mongoose.c:2186-2210 | A packet parses the same from its own bytes alone, and every strict prefix of it is reported incomplete. |
| `Mqtt.ParseIsStable` | 3d_party/mongoose/mongoose.c:2186-2248 | More bytes never change a packet or a malformed verdict. |
| `Mqtt.PublishedParses` | 3d_party/mongoose/mongoose.c:2155-2171 | A published packet parses to its topic, data, service level and identifier, with anything behind it, if and only if the topic is below 2^16 bytes and the remaining length below 2^28. |
| `Mqtt.OthersParse` | 3d_party/mongoose/mongoose.c:2186-2248 | Every other packet, with anything behind it: an answer to a login carries its return code, an acknowledgement its id, and both are malformed without them. |
| `Mqtt.LoginAnswers` | 3d_party/mongoose/mongoose.c:2290-2299 | An answer to a login is handed on and closes the connection exactly when its return code is not zero. |
| `Mqtt.MalformedCloses` | 3d_party/mongoose/mongoose.c:2279-2288 | A malformed packet closes the connection and is not handed on. |
| `Mqtt.PublicationStarts` | 3d_party/mongoose/mongoose.c:2155-2171 | The first byte of a publication is that of section 3.3.1 of MQTT 3.1.1. |
| `Mqtt.LengthReadsBack` | 3d_party/mongoose/mongoose.c:2091-2102 | The remaining length is read back exactly below 2^28, and its four bytes are refused from there on. |
| `Mqtt.PublicationsArrive` | 3d_party/mongoose/mongoose.c:2276-2312 | However the bytes of a list of publications are cut into reads, they are delivered in order. |
| `MqttObject.ParseLength` | 3d_party/mongoose/mongoose.c:2196-2206 | The loop over the length bytes yields the length of the value model. |
| `MqttObject.ParseMessage` | 3d_party/mongoose/mongoose.c:2186-2248 | The parser with its cursor decides as the value model does. |
| `MqttObject.ParseFields` | 3d_party/mongoose/mongoose.c:2212-2246 | The fields of each kind of packet, with the bounds that make it malformed. |
| `MqttObject.RemainingLength` | 3d_party/mongoose/mongoose.c:2158-2161 | The remaining length modulo 2^32. |
| `MqttObject.Connection.OnRead` | 3d_party/mongoose/mongoose.c:2276-2315 | After a read, the messages handed on, the bytes kept and the closing flag are those of the value model. |
| `MqttObject.Connection.SendHeader` | 3d_party/mongoose/mongoose.c:2091-2102 | The loop appends the first byte and the length bytes. |
| `MqttObject.PacketIds.Next` | 3d_party/mongoose/mongoose.c:2166-2168 | The identifiers of all connections come from one counter that goes through 1 to 65535 and never is zero. |
| `MqttObject.Connection.Publish` | 3d_party/mongoose/mongoose.c:2155-2171 | Appends exactly one packet of the publication, under the next identifier of the shared counter if it needs one. |
| `Glob.GlobMatch` | 3d_party/mongoose/mongoose.c:4233-4248 | For patterns without `*`, unless pattern and subject both have a `#`, the loop with its single place to go back to terminates and decides the declarative match relation; each of its turns is that of the turn-by-turn model. |
| `Glob.OnlyTheLastRun` | 3d_party/mongoose/mongoose.c:4240-4245 | The exchange argument: if the pattern behind the last `#` fails from every later place, no other choice for an earlier `#` helps. |
| `Glob.PatternsDecided` | 3d_party/mongoose/mongoose.c:4233-4248 | Main result: a pattern without `*` is decided correctly on all subjects if and only if it has no `#`. |
| `Glob.SubjectsDecided` | 3d_party/mongoose/mongoose.c:4233-4248 | Main result: a subject is decided correctly for all patterns without `*` if and only if it has no `#`. |
| `Glob.RefusesMatch` | 3d_party/mongoose/mongoose.c:4236-4245 | Every pattern with a `#` is refused on a subject it matches: the pattern itself with any one character more behind its last `#`, since the loop takes a `#` that meets a `#` literally. |
| `Glob.EndsRight` | 3d_party/mongoose/mongoose.c:4233-4248 | From every state that keeps the invariant the turns come to an end, with the right answer. |
| `Glob.LoopsForever` | 3d_party/mongoose/mongoose.c:4233-4248 | A small family of inputs on which the loop never stops. |
| `Glob.PatternsEnd` | 3d_party/mongoose/mongoose.c:4233-4248 | Main result: the loop ends on all subjects for a pattern without `*` if and only if the pattern has no `#`. |
| `Glob.NeverEnds` | 3d_party/mongoose/mongoose.c:4236-4245 | Every pattern with a `#` has a subject on which the loop keeps going back to the same place. |
| `Sha1.Context.Update` | 3d_party/mongoose/mongoose.c:2693-2711 | The context stands for the message fed so far; feeding more makes it stand for the longer message, whatever the lengths. |
| `Sha1.StartsAsDefined` | 3d_party/mongoose/mongoose.c:2684-2691 | The initial state is that of section 6.1 of RFC 3174. |
| `Sha1.Context.Absorb` | 3d_party/mongoose/mongoose.c:2700-2710 | Every block that the new bytes complete is transformed once, in order; the rest goes behind the bytes kept. |
| `Sha1.Context.Count` | 3d_party/mongoose/mongoose.c:2697-2699 | The two words with their carry count the bits fed, modulo 2^64. |
| `Sha1.CounterAdds` | 3d_party/mongoose/mongoose.c:2697-2699 | The carry test on the low word and the shift of the length into the high word add exactly, for every length. |
| `Sha1.Context.FillBlock` | 3d_party/mongoose/mongoose.c:2722-2727 | The loop appends the fewest zero bytes that bring the length to 56 modulo 64. |
| `Sha1.Context.Final` | 3d_party/mongoose/mongoose.c:2713-2735 | Main result: the digest is the transform folded over everything fed, padded as in section 5.1.1 of FIPS 180-4, and the context is wiped. |
| `Sha1.FoldAppend` | 3d_party/mongoose/mongoose.c:2703-2706 | Folding the transform over whole blocks may be cut anywhere between blocks. |
| `Sha1.HashPair` | 3d_party/mongoose/mongoose.c:4536-4540 | Two updates hash the concatenation. |
| `Sha1.MaskKey` | 3d_party/mongoose/mongoose.c:2750-2759 | The loops mask the padded key in two buffers. |
| `Sha1.HmacSha1` | 3d_party/mongoose/mongoose.c:2737-2770 | The nested hash of section 2 of RFC 2104, with a long key hashed first. |
| `Utf8.DecodeIsGrammar` | 3d_party/rapidjson/include/rapidjson/encodings.h:141-204 | The byte classes and masks accept a character exactly when the grammar of section 4 of RFC 3629 does, and consume its length. |
| `Utf8.ValueEncodes` | 3d_party/rapidjson/include/rapidjson/encodings.h:101-119 | A character of the grammar has a scalar value whose encoding is that character. |
| `Utf8.EncodeIsGrammar` | 3d_party/rapidjson/include/rapidjson/encodings.h:101-119 | The encoding of every scalar value is a character of the grammar with that value, whatever follows. |
| `Utf8.ValidateIsDecode` | 3d_party/rapidjson/include/rapidjson/encodings.h:206-254 | Validating accepts and consumes what decoding does, and copies what it consumed. |
| `Utf8.DecodesTheWellFormed` | 3d_party/rapidjson/include/rapidjson/encodings.h:141-204 | Main result: repeated decoding accepts exactly the well-formed strings, and the code points encode back to the string. |
| `Utf8.DecodesTheEncoded` | 3d_party/rapidjson/include/rapidjson/encodings.h:101-119 | Decoding the encoding of any scalar values gives them back. |
| `Utf8.ValidatesTheWellFormed` | 3d_party/rapidjson/include/rapidjson/encodings.h:206-254 | Repeated validation copies the well-formed strings and refuses all others. |
| `Utf8.Decodes16` | 3d_party/rapidjson/include/rapidjson/encodings.h:348-364 | UTF-16 decodes the units of every scalar value to that value. |
| `Utf8.Encodes16` | 3d_party/rapidjson/include/rapidjson/encodings.h:327-341 | What UTF-16 decodes is a scalar value that encodes to the units consumed. |
| `Utf8.ThereAndBack` | 3d_party/rapidjson/include/rapidjson/encodings.h:706-715 | Main result: a string of bytes has a UTF-16 form if and only if it is well-formed, and transcoding back gives the string. |
| `Utf8.BackAndThere` | 3d_party/rapidjson/include/rapidjson/encodings.h:706-715 | The same from UTF-16. |
| `Utf8Streams.Input.Decode` | 3d_party/rapidjson/include/rapidjson/encodings.h:141-204 | Taking byte after byte from the stream yields the decoding of what was left of it. |
| `Utf8Streams.Input.Validate` | 3d_party/rapidjson/include/rapidjson/encodings.h:206-254 | Taking and putting byte after byte checks and copies as the value model does. |
| `Utf8Streams.Input.Transcode` | 3d_party/rapidjson/include/rapidjson/encodings.h:706-715 | One code point goes over to UTF-16, or nothing does. |
| `Utf8Streams.PutBytes` | 3d_party/rapidjson/include/rapidjson/encodings.h:101-119 | Puts the UTF-8 bytes of a code point. |
| `Utf8Streams.PutUnits` | 3d_party/rapidjson/include/rapidjson/encodings.h:327-341 | Puts the UTF-16 units of a code point. |
| `Pointer.PrintedParses` | 3d_party/rapidjson/include/rapidjson/pointer.h:831-955 | Main result: every list of names that can be printed, as a string or as a URI fragment, parses back to the same names. |
| `PointerGrammar.AcceptsTheGrammar` | 3d_party/rapidjson/include/rapidjson/pointer.h:831-955 | Main result: a string that is no fragment is accepted if and only if it spells some list of names with ~0 and ~1, and then parses to these names; otherwise the error points behind a bad tilde or says that the solidus is missing. |
| `PointerGrammar.PrintsTheSpelling` | 3d_party/rapidjson/include/rapidjson/pointer.h:964-999 | Names are printed byte by byte: ~0 for a tilde, ~1 for a solidus, and in a fragment an upper-case triplet for every byte that is not unreserved. |
| `PointerGrammar.FragmentsAreUris` | 3d_party/rapidjson/include/rapidjson/pointer.h:868-895 | A fragment that is accepted holds only unreserved characters, solidi and percent signs. |
| `PointerGrammar.TripletsExactly` | 3d_party/rapidjson/include/rapidjson/pointer.h:1020-1043 | A triplet stands for its byte, with digits of either case. |
| `Pointer.Printable` | 3d_party/rapidjson/include/rapidjson/pointer.h:970-999 | The string form prints every list of names; the fragment form prints a list if and only if all names are well-formed UTF-8. |
| `Pointer.NameReadsBack` | 3d_party/rapidjson/include/rapidjson/pointer.h:873-915 | A printed name, up to a solidus or the end, is read back whole, with its test for digits. |
| `Pointer.PieceReadsBack` | 3d_party/rapidjson/include/rapidjson/pointer.h:873-912 | A printed character is read back: escape, percent triplets or itself. |
| `Pointer.BuffersSuffice` | 3d_party/rapidjson/include/rapidjson/pointer.h:841-950 | Every counted token is filled, and names with their terminators never outgrow a buffer as long as the text. |
| `Pointer.IndexIsValue` | 3d_party/rapidjson/include/rapidjson/pointer.h:916-941 | A canonical numeral gets its value as index if and only if the value has 32 bits; names that are no canonical numeral get none. |
| `Pointer.IndexOfNumeral` | 3d_party/rapidjson/include/rapidjson/pointer.h:923-938 | The exact index of every canonical numeral, however large: none if some digit takes the value modulo 2^32 below what it was before, else the value modulo 2^32. |
| `Pointer.LargeNumerals` | 3d_party/rapidjson/include/rapidjson/pointer.h:933-938 | A numeral too large for an index gets none if and only if the test for wrap-around notices it or it is 2^32 - 1 modulo 2^32. |
| `Pointer.UnnoticedWrap` | 3d_party/rapidjson/include/rapidjson/pointer.h:933-938 | 5000000000 is not noticed and gets the index 705032704. |
| `Pointer.ParsedIndexes` | 3d_party/rapidjson/include/rapidjson/pointer.h:866-941 | In every text that parses, each token has the index of its name. |
| `PointerObject.ReadPiece` | 3d_party/rapidjson/include/rapidjson/pointer.h:875-909 | One turn of the inner loop, with its errors and their offsets. |
| `PointerObject.ReadName` | 3d_party/rapidjson/include/rapidjson/pointer.h:870-914 | The inner loop writes the name of the value model into the buffer and leaves what is before it. |
| `PointerObject.ReadIndex` | 3d_party/rapidjson/include/rapidjson/pointer.h:923-938 | The loop over digits in 32 bits, with its test for wrap-around. |
| `PointerObject.CountSlashes` | 3d_party/rapidjson/include/rapidjson/pointer.h:840-844 | Counts the tokens to come. |
| `PointerObject.ReadToken` | 3d_party/rapidjson/include/rapidjson/pointer.h:866-941 | Name, terminator and slot of one token, inside the buffers. |
| `PointerObject.ParseTokens` | 3d_party/rapidjson/include/rapidjson/pointer.h:865-943 | The outer loop fills all slots; names read back from the buffer are those of the value model. |
| `PointerObject.GenericPointer.Parse` | 3d_party/rapidjson/include/rapidjson/pointer.h:831-955 | The parsed object holds the tokens of the value model, or no token and its error and offset. |
| `PointerObject.GenericPointer.Stringify` | 3d_party/rapidjson/include/rapidjson/pointer.h:964-999 | Prints the names of the tokens in either form, and fails exactly when the value model does. |
| `PointerObject.PutName` | 3d_party/rapidjson/include/rapidjson/pointer.h:973-996 | The loop over the bytes of a name. |
| `PointerObject.PutPercent` | 3d_party/rapidjson/include/rapidjson/pointer.h:1052-1060 | Percent triplets of the bytes put. |
| `PoolRuns.PoolRefinesHeap` | 3d_party/rapidjson/include/rapidjson/allocators.h:174-224 | Main result: every run of a pool, with or without a buffer of the caller, is a run of a heap: new blocks lie where none is in use, a resized block keeps its bytes whether it grows, stays or moves, other blocks keep theirs, no two blocks in use overlap, and memory is refused only when no more can be had. |
| `PoolRuns.StepIsSafe` | 3d_party/rapidjson/include/rapidjson/allocators.h:174-224 | Each call and each write of a client keeps blocks housed, disjoint and holding their bytes. |
| `PoolRuns.StepIsHeapStep` | 3d_party/rapidjson/include/rapidjson/allocators.h:174-224 | Each call changes the blocks in use as a heap may. |
| `PoolRuns.TakeIsFresh` | 3d_party/rapidjson/include/rapidjson/allocators.h:174-187 | A new block is none of those in use. |
| `PoolRuns.ResizeIsSafe` | 3d_party/rapidjson/include/rapidjson/allocators.h:190-224 | A resized block goes to its own address or to one nobody uses, and everything stays in place. |
| `PoolRuns.BlocksAreAligned` | 3d_party/rapidjson/include/rapidjson/allocators.h:174-187 | A block is aligned exactly as the chunk it lies in. |
| `Pool.MallocIsSafe` | 3d_party/rapidjson/include/rapidjson/allocators.h:174-187 | A block cut off the newest chunk or a new one is housed and clear of every housed block. |
| `Pool.MallocExactly` | 3d_party/rapidjson/include/rapidjson/allocators.h:178-190 | A block is refused exactly for size zero, or when the newest chunk is full and no memory can be had; the size rounded up to eight is used, and a new chunk is taken only when needed. |
| `Pool.ReallocExactly` | 3d_party/rapidjson/include/rapidjson/allocators.h:193-224 | A block stays in place exactly when it does not outgrow its rounded size or is last with room behind it; otherwise a new one is handed out. |
| `Pool.ReallocIsSafe` | 3d_party/rapidjson/include/rapidjson/allocators.h:190-224 | Resizing keeps the block housed and clear of the others, and a moved block lies clear of its old place. |
| `Pool.LastIsNewest` | 3d_party/rapidjson/include/rapidjson/allocators.h:206-214 | The test of addresses singles out blocks of the newest chunk, whatever the addresses of chunks. |
| `Pool.LastGrowsClear` | 3d_party/rapidjson/include/rapidjson/allocators.h:206-214 | A block that passes the test can grow without reaching any other. |
| `PoolObject.UseIsBounded` | 3d_party/rapidjson/include/rapidjson/allocators.h:156-171 | What is in use never exceeds the capacity. |
| `PoolObject.MemoryPoolAllocator.OnBuffer` | 3d_party/rapidjson/include/rapidjson/allocators.h:127-136 | The buffer of the caller becomes the first chunk. |
| `PoolObject.MemoryPoolAllocator.AddChunk` | 3d_party/rapidjson/include/rapidjson/allocators.h:241-253 | A new chunk in front, or nothing. |
| `PoolObject.MemoryPoolAllocator.Malloc` | 3d_party/rapidjson/include/rapidjson/allocators.h:174-187 | Chunks and address of the value model. |
| `PoolObject.MemoryPoolAllocator.Realloc` | 3d_party/rapidjson/include/rapidjson/allocators.h:190-224 | Chunks, address and memory of the value model; for a block in use, copying happens exactly when it moves. |
| `PoolObject.MemoryPoolAllocator.Clear` | 3d_party/rapidjson/include/rapidjson/allocators.h:147-155 | All chunks go but the buffer of the caller, which is empty again. |
| `PoolObject.MemoryPoolAllocator.Size` | 3d_party/rapidjson/include/rapidjson/allocators.h:166-171 | The sum of what is in use. |
| `PoolObject.MemoryPoolAllocator.Capacity` | 3d_party/rapidjson/include/rapidjson/allocators.h:156-162 | The sum of the capacities. |
| `Ingest.StepBoundary` | receiver/src/request_handler/request_handler_file_process.cpp:9-35 | Over all interleavings, a step from a safe state is safe again if and only if it is not a failed overwrite that leaves less than the whole of a file whose record is stored or about to be. |
| `Ingest.FilesOfRecordsAreWhole` | receiver/src/request_handler/request_handler_db_write.cpp:23-50 | Main result: in every interleaving without such a step, each record stored along with its file has the name, size and metadata its key stands for, and that file with the bytes its key stands for. |
| `Ingest.HarmlessRunsAreSafe` | receiver/src/request_handler/request_handler_db_write.cpp:23-50 | The invariant behind it, over whole runs. |
| `Ingest.SoundStoresAreHarmless` | common/cpp/src/system_io/system_io.cpp:185-202 | Runs in which the stores report no error have no such step. |
| `Ingest.SerialRunsAreHarmless` | receiver/src/request_handler/request_handler_file_process.cpp:19-35 | Runs with one request per key at a time have no such step, whatever fails and whoever disconnects. |
| `Ingest.FileIsLost` | receiver/src/request_handler/request_handler_file_process.cpp:19-35 | Two requests for one key can end with a stored record and a truncated file: the run that shows it. |
| `Ingest.OverwriteBreaks` | receiver/src/request_handler/request_handler_file_process.cpp:26-30 | Every such step does lose the file. |
| `Ingest.RecordsNeverChange` | receiver/src/request_handler/request_handler_db_write.cpp:53-74 | A transfer request adds records; it never changes or removes one. |
| `Ingest.RetriesSucceed` | receiver/src/request_handler/request_handler_db_check_request.cpp:41-67 | Main result: in every interleaving, a request that is through has succeeded if and only if no store failed it and, if it was to store a file, the file is not empty and has a folder to go to; then its record is in the database and its file in the file store, and it has a warning if its record was there when it began. A request none of whose own store operations fail is failed by no store, whatever the others meet. |
| `IngestOutcomes.TransferOutcome` | receiver/src/request_handler/request_handler_file_process.cpp:9-35 | Main result: the outcome of every transfer on any two stores: a new message is stored as file and record, a retry succeeds with a warning, a conflict fails; which store changes, and when there is a warning, exactly. |
| `IngestOutcomes.ConflictsAreRefused` | receiver/src/request_handler/request_handler_db_check_request.cpp:51-67 | A request that conflicts with the record of its key fails and changes no record and no stored file; it leaves the file store alone if and only if a file of its name is there or it cannot be stored. |
| `IngestOutcomes.DuplicateExactly` | receiver/src/request_handler/request_handler_db_check_request.cpp:41-67 | With a record for its key, a request is a duplicate exactly when size, name and metadata (empty stored as an empty document) are those of the record, else a bad request. |
| `IngestOutcomes.RecordsHaveFiles` | receiver/src/request_handler/request_handler_db_write.cpp:23-50 | In every interleaving without a harmful step in which every request stores its file, every record has its whole file. |
| `IngestOutcomes.FoldersExactly` | receiver/src/request_handler/file_processors/file_processor.cpp:15-65 | A file has a folder exactly when its name lies in "raw" or "processed", as its source type says, holds no two dots in a row, and the online path is known where it is needed; and which path it is. |
| `Ingest.UnstorableFails` | receiver/src/request_handler/file_processors/write_file_processor.cpp:15-38 | An empty file, or one without a folder, ends in error although no store failed: the run that shows it. |
| `Ingest.OnlyOwnFailuresHurt` | receiver/src/request_handler/request_handler_file_process.cpp:9-35 | From any state and over any run, only failures of its own store operations mark a request as failed by a store. |
| `Ingest.RunsAreFair` | receiver/src/request_handler/request_handler_db_check_request.cpp:51-67 | The invariant behind it: what each request has found out so far stays true. |
| `IngestHandlers.Stores.ProcessFile` | receiver/src/request_handler/file_processors/write_file_processor.cpp:15-38 | The file store after writing a file, for each way it may fail: wrong size, wrong name or folder, a file that exists, an error of the store. |
| `IngestHandlers.Stores.GetRootFolder` | receiver/src/request_handler/file_processors/file_processor.cpp:15-65 | The searches for two dots and for the first separator decide which names and paths are refused, and which folder the others go to. |
| `IngestHandlers.Stores.CheckForDuplicates` | receiver/src/request_handler/request_handler_db_check_request.cpp:41-67 | No record, a duplicate, or a conflicting record, as `IngestOutcomes.DuplicateExactly` states by size, name and metadata. |
| `IngestHandlers.Stores.FileProcess` | receiver/src/request_handler/request_handler_file_process.cpp:9-35 | The handler is the sequence of file steps of the interleaved model. |
| `IngestHandlers.Stores.DbWrite` | receiver/src/request_handler/request_handler_db_write.cpp:23-50 | The handler is the sequence of record steps of the interleaved model. |
| `RequestChain.AddHandlers` | receiver/src/request_handler/request_factory.cpp:48-104 | The chain of handlers for every header, or the error. |
| `RequestChain.WorkFollowsAuthorization` | receiver/src/request_handler/request_factory.cpp:48-104 | An authorization request gets only the authorization; every other chain begins with the secondary authorization and has no authorization behind it. |
| `RequestChain.FileBeforeRecord` | receiver/src/request_handler/request_factory.cpp:20-46 | In the chain of a transfer, storing the record is the last handler if it is there at all, and storing the file is right before it, by the processor the size and mode call for. |
| `RequestChain.HandlersExactly` | receiver/src/request_handler/request_factory.cpp:48-104 | In every accepted chain, each kind of handler is there exactly for its own requests, once, and in the order authorization, metadata, data, file, database. |
| `RequestChain.AcceptedExactly` | receiver/src/request_handler/request_factory.cpp:48-104 | Which headers are refused: unknown opcodes, large data that stores no file, and metadata that goes to no database. |
| `Session.SessionsAreAuthorized` | receiver/src/connection.cpp:30-42 | Main result: in every run of a connection, each request that reaches a data, file or database handler comes from a supported client after a granted initial authorization, carries the beamtime of it, has "writeraw" (raw data) or "write" (processed data) among the access types of the last granted answer, and that answer was given for it or is younger than the interval by the clock. |
| `Session.RequestsAreServed` | receiver/src/request.cpp:41-51 | Exactly when a request leaves its connection open, and that an admitted request reaches every handler of its chain in order up to the first that fails, any other request none. |
| `Session.InitialExactly` | receiver/src/request_handler/request_handler_initial_authorization.cpp:12-24 | An initial authorization succeeds exactly once, for a supported client whom the server grants it to, and fills the cache from the answer. |
| `Session.AdmittedExactly` | receiver/src/request_handler/request_handler_secondary_authorization.cpp:15-82 | A request passes the secondary authorization exactly if the cached answer is younger than the interval or the server renews it for the same beamtime. |
| `Session.GrantedExactly` | receiver/src/request_handler/authorization_client.cpp:39-53 | An answer grants access exactly with "writeraw" among its access types for raw data, and "write" for processed data. |
| `Session.RenewalEndsExactly` | receiver/src/request_handler/request_handler_secondary_authorization.cpp:15-24 | The authorization ends exactly when a due renewal is denied or names another beamtime; a server that cannot be reached or answers nonsense fails the request alone. |
| `Session.ListenIsSound` | receiver/src/connection.cpp:30-46 | The invariant of the cache over the loop. |
| `Session.ServeIsSound` | receiver/src/request_handler/requests_dispatcher.cpp:55-88 | One request keeps it, whatever its chain and wherever it fails. |
| `Session.ChainIsSound` | receiver/src/request.cpp:41-51 | The loop over handlers keeps it and stops at the first error. |
| `Session.FailedRenewalKeepsFields` | receiver/src/request_handler/authorization_client.cpp:79-97 | A request that fails in the secondary authorization leaves the cached answer as it was if and only if no renewal was due and granted; without a granted renewal nothing changes but that the authorization may end. |
| `Session.OtherBeamtimeOverwrites` | receiver/src/request_handler/request_handler_secondary_authorization.cpp:15-24 | A renewal for another beamtime overwrites the cached answer, then fails and clears the credentials. |
| `Session.Receiver.UpdateData` | receiver/src/request_handler/authorization_client.cpp:79-97 | Overwrites the record with the answer and stamps it; rolls it back when the access type is missing (`GrantedExactly`) or the answer is malformed. |
| `Session.Receiver.InitialAuthorization` | receiver/src/request_handler/request_handler_initial_authorization.cpp:12-24 | Fills the cache once; a second attempt is an error. |
| `Session.Receiver.SecondaryAuthorization` | receiver/src/request_handler/request_handler_secondary_authorization.cpp:15-82 | Renews the cache when it is old, invalidates it when renewal is refused or for another beamtime, and without an error fills the fields of the request from the cache. |
| `Session.Receiver.HandleRequest` | receiver/src/request.cpp:41-51 | The loop over handlers leaves connection and log as the value model does. |
| `Session.Receiver.ListenTo` | receiver/src/connection.cpp:30-46 | The loop over requests stops at the first error and ends as the value model does. |

## Left out

- Glob.GlobMatch: patterns with `*`, for which one place to go back to is not enough; inputs with a `#` on both sides, for which `PatternsDecided`, `SubjectsDecided`, `RefusesMatch` and `PatternsEnd` say what happens.
- Error codes of the two JSON readers, which differ, and handlers that stop the parsing.
- Binary doubles: the readers report sign, significand and exponent of a number over the reals, and rounding to and from binary is not part of this model.
- JSON flags other than the defaults: comments, trailing commas, NaN, in-situ parsing, full precision, validation of encodings while parsing.
- Vectorized scanning of white space and strings.
- Overflow of the lock count and of 64-bit addresses.
- Names of JSON Pointers longer than 32-bit lengths; percent triplets are collected first and validated then, where the code does both at once.
- The limit on the receive buffer, the handshake and the sockets of the HTTP server; memory that runs out in its buffers.
- MQTT login, subscription and the list of topics.
- The SHA-1 block transform, MD5 and base64.
- Retrieval, statistics, metrics, logging, configuration and the network layers of the receiver: plumbing without a hard property.
- Deleting streams and metadata requests: thin calls into the database.
- Messages without an id of their own, for which the database chooses one.
- Allocation of request buffers outside the cache.
