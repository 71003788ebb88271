# AFL: verified cores

This project models the stateful cores of AFL, a C++ foundation library, in Dafny, and proves
what their documentation, comments and tests promise, over all inputs and all runs.

- **Multi-iterator list** (`Cursors`, `ListRuns`, `MultiList`, `ListRefinement`,
  `MultiListSort`).  A heap of nodes and iterators linked by "predecessor or head" references,
  both chains intrusive.  A value-level run model says what every step does to every iterator;
  the heap operations are proved to follow it; `sort` and `merge` are proved on the heap.
- **BufferedStream** (`BufferedStream`).  A three-mode cache that refines a plain byte sequence
  with a position.  The stream below may read and write partially.
- **UTF-8** (`Utf8`, `Utf8Forms`, `Utf8RoundTrip`, `Utf8Positions`).  Encoder, decoder and
  position functions under every set of flags, the byte forms written out, and exact conditions
  for both round trips.
- **Checksums and hashes** (`Adler32`, `Adler32Closed`, `Crc`, `CrcRemainder`, `Padding`,
  `PaddingForms`, `Md5`, `Sha1`, `Sha2`, `HashRuns`, `Hmac`, `HmacForms`).  Adler-32 equals its
  closed form, a CRC is the remainder of a polynomial division.  The compression functions and
  the final serialisation of the state words are parameters.
- **Asynchronous objects** (`Operations`, `ControllerWait`, `Mutex`, `MutexAccounts`,
  `Semaphore`, `MessageExchange`, `MessageAccounts`, `Ticks`, `Timer`, `TimerAccounts`).
  Every member function runs under one lock, so each is one step; runs are sequences of steps.
  `Ledgers` keeps the account of completed operations for all of them, and `Lines` the order of
  waiting.
- **gzip header** (`GzipHeader`, `GzipForms`) and **name index** (`NameMap`).

Parameters instead of the outside world: the tick counter of a timer, the order in which
threads get the lock (any run), the underlying stream, the compression functions, and the
room in an output buffer.

## Findings

Where the code does not do what one would expect, the model follows the code and states the
exact condition.

- `pushFrontNew` does not re-point the back link of the old first node: the list is well
  formed afterwards if and only if it was empty (`MultiLists.MultiList.PushFrontNew`).
- An iterator on the last element does not see elements appended later
  (`Cursors.AppendAhead`, `MultiLists.MultiList.PushBackNew`).
- The comments of `sort` and `merge` say that all iterators are invalidated; the code keeps
  them registered and sound (`MultiListSorting.Sort`).
- `BufferedStream::getSize` reports the position instead of the size after an empty write at a
  position past the end, and only then (`BufferedStreams.SizeExactly`).
- Decoding and encoding again is the identity for exactly two flag sets
  (`Utf8RoundTrip.TransparentExactly`).
- The range check of the decoder compares with `>=` against the largest code point, which
  makes no difference (`Utf8RoundTrip.LargestIsNonCharacter`).
- SHA-2 fills a partial last word of the caller's buffer with zeros, while MD5 and SHA-1
  truncate (`Sha2.TruncatedExactly`).
- A semaphore `cancel` never gives a token back: a token is lost in a run exactly when a cancel
  comes between the grant of its operation and the delivery (`Semaphores.NoTokenLostExactly`,
  `Semaphores.CancelRevokesExactly`; `Semaphores.CancelAfterGrantLosesToken` is an example).
- A mutex `cancel` never releases: it gives up a claim exactly when the operation still waits
  (`Mutexes.CancelReleasesExactly`, `Mutexes.CancelKeepsBalance`;
  `Mutexes.CancelAfterGrantKeepsOwner` is an example).
- A mutex serves controllers first come, first served, but an operation of the controller next
  in line overtakes earlier operations of others (`MutexAccounts.LongestWaiterNext`,
  `MutexAccounts.OvertakesExactly`; `MutexAccounts.Overtaken` is an example).
- A message whose transfer is complete stays transferred when either side cancels; only the
  notification goes, and an operation cancelled before its transfer is never transferred
  (`MessageAccounts.CancelSettlesSend`, `MessageAccounts.CancelSettlesReceive`;
  `MessageAccounts.CancelAfterTransfer` is an example).
- A timer `cancel` never gives a signal back: a firing is lost in a run exactly when a cancel
  comes between the grant of its operation and the delivery
  (`TimerAccounts.NoSignalLostExactly`; `TimerAccounts.CancelAfterGrantLosesSignal` is an
  example).
- `Semaphore::wait` and `Mutex::wait` return false with the token taken or the mutex owned
  exactly when the grant came after the last look of the wait that timed out
  (`Semaphores.TimedOutWait`, `MutexAccounts.TimedOutWait`;
  `Semaphores.TimedOutWaitLosesToken` is an example).
- A controller that times out does not look at its queue again, and misses exactly what was
  completed in the last round (`ControllerWaits.WaitAny`, `ControllerWaits.WaitFor`;
  `ControllerWaits.CompletedTooLate` is an example).
- `computePBKDF2` with an iteration count of 0 behaves as with 1 (`Hmac.FirstBlock`).

## Model

| member | source | states |
|---|---|---|
| `Cursors.ExtractAhead` | afl/container/ptrmultilistbase.cpp:137-144 | after an extraction every cursor is still sound, and what it still visits is what it was going to visit without the extracted element, whichever of its two pointers was on it |
| `Cursors.InsertAhead` | afl/container/ptrmultilistbase.cpp:203-210 | after an insertion before y every cursor is sound and gains the new element exactly when y was ahead of it and not first; everything else it visits stays in order |
| `Cursors.AppendAhead` | afl/container/ptrmultilistbase.cpp:172-181 | an append is seen by a cursor exactly when its next pointer is set; one on the last element does not see it |
| `Cursors.NextAhead` | afl/container/ptrmultilistbase.hpp:145-151 | advancing drops the current item, if any, from what is still visited, and keeps the cursor sound |
| `ListRuns.StepKeepsOk` | afl/container/ptrmultilistbase.cpp:20-217 | each of append, insert, extract, clear, begin, end, copy, assign, advance, destroy keeps: nodes distinct, every cursor null or on list nodes with next the successor, no deleted node in the list |
| `ListRuns.InsertedAhead` | afl/container/ptrmultilistbase.cpp:111-128 | an insertion through a cursor goes directly before the first element it still visits, and to the end if there is none |
| `ListRuns.Run` | afl/container/ptrmultilistbase.cpp:20-217 | every state reached by any enabled run satisfies that invariant |
| `ListRuns.NoDanglingIterator` | afl/container/ptrmultilistbase.hpp:15-27 | in every run from the empty list no iterator ever refers to a deleted node |
| `ListRuns.StepLeaves` | afl/container/ptrmultilistbase.cpp:109-217 | a step that does not move an iterator takes from its future exactly the deleted elements and can only add new ones |
| `ListRuns.RunLeaves` | afl/container/ptrmultilistbase.hpp:15-27 | deletion and insertion invalidate no iterator: after any run that does not move it, it still visits, in order, exactly its old elements minus the deleted ones |
| `MultiLists.Iterator.constructor` | afl/container/ptrmultilistbase.hpp:106-116 | registers the iterator at the head of the iterator chain; the list stays well formed |
| `MultiLists.Iterator.Copy` | afl/container/ptrmultilistbase.hpp:127-132 | the copy has the same position and is registered right before its original, or nowhere if the original is not |
| `MultiLists.Iterator.Assign` | afl/container/ptrmultilistbase.cpp:22-31 | the iterator leaves its list, takes over the position of the other and is registered right before it; both lists stay well formed, no other iterator is gained or lost, self-assignment changes nothing |
| `MultiLists.Iterator.Next` | afl/container/ptrmultilistbase.hpp:145-151 | moves to the cached next item and caches its successor; stays live |
| `MultiLists.Iterator.Invalidate` | afl/container/ptrmultilistbase.hpp:177-182 | becomes an unregistered end() iterator; the rest of the chain is unchanged |
| `MultiLists.Iterator.Unlink` | afl/container/ptrmultilistbase.cpp:35-49 | exactly this iterator leaves the chain, and the chain stays well formed; unregistered iterators are left alone |
| `MultiLists.Iterator.Bypass` | afl/container/ptrmultilistbase.cpp:37-48 | the pointer writes: whatever pointed here points to the successor, and the successor points back there |
| `MultiLists.Iterator.Link` | afl/container/ptrmultilistbase.cpp:53-66 | the iterator enters the chain directly before the other one |
| `MultiLists.Iterator.EnterBefore` | afl/container/ptrmultilistbase.cpp:55-60 | the pointer writes of that insertion |
| `MultiLists.MultiList.Meaning` | afl/container/ptrmultilistbase.hpp:80-88 | for every well-formed list, the node links give the successor relation and every registered iterator is a sound cursor |
| `MultiLists.MultiList.InsertAtEnd` | afl/container/ptrmultilistbase.cpp:172-181 | appends exactly one new node; no iterator pointer changes |
| `MultiLists.MultiList.InsertBefore` | afl/container/ptrmultilistbase.cpp:191-211 | the new node stands right before the item, and exactly the iterators on an element whose next was the item are retargeted |
| `MultiLists.MultiList.ExtractElement` | afl/container/ptrmultilistbase.cpp:132-159 | removes exactly the node the iterator is on and returns its data, null when there is none; every registered iterator is retargeted as AfterExtract says; list stays well formed |
| `MultiLists.MultiList.Insert` | afl/container/ptrmultilistbase.cpp:111-128 | the new node stands directly before the element the iterator visits next, be its own element there or deleted, and at the end when it visits nothing more; every other iterator is retargeted as in the run, and the result iterator is on the new node |
| `MultiLists.MultiList.InvalidateAllIterators` | afl/container/ptrmultilistbase.cpp:163-168 | all registered iterators become unregistered end() iterators; the nodes stay; the loop ends |
| `MultiLists.MultiList.Begin` | afl/container/ptrmultilistbase.hpp:227-230 | a registered iterator on the first node |
| `MultiLists.MultiList.ExtractFront` | afl/container/ptrmultilistbase.hpp:248-251 | takes the first element off; all iterators are retargeted, and the temporary iterator is gone again |
| `MultiLists.MultiList.Clear` | afl/container/ptrmultilistbase.cpp:70-79 | no nodes, no registered iterators, all former ones are end() iterators, all former nodes are marked deleted |
| `MultiLists.MultiList.Erase` | afl/container/ptrmultilistbase.cpp:104-107 | an iterator on no element changes nothing; otherwise every iterator still visits what it was going to visit, without the erased element |
| `MultiLists.MultiList.PushBackNew` | afl/container/ptrmultilistbase.hpp:212-215 | appends; the new element is visited by exactly the iterators whose next pointer is set |
| `MultiLists.MultiList.PushFrontNew` | afl/container/ptrmultilistbase.cpp:84-95 | the list is well formed afterwards if and only if it was empty before: the old first node keeps its old back link |
| `MultiLists.MultiList.Size` | afl/container/ptrmultilistbase.cpp:221-228 | counts the nodes |
| `ListRefinement.StepExtract` | afl/container/ptrmultilistbase.cpp:132-159 | on a heap list that mirrors a run state, extractElement leads to the heap that mirrors the next state of the run |
| `ListRefinement.StepInsert` | afl/container/ptrmultilistbase.cpp:111-128 | the same for insert, with the new element directly before the one the iterator visits next |
| `ListRefinement.StepAppend` | afl/container/ptrmultilistbase.cpp:172-181 | the same for an append |
| `ListRefinement.StepBegin` | afl/container/ptrmultilistbase.hpp:227-230 | the same for begin |
| `ListRefinement.StepEnd` | afl/container/ptrmultilistbase.hpp:234-237 | the same for end |
| `ListRefinement.StepAdvance` | afl/container/ptrmultilistbase.hpp:145-151 | the same for next |
| `ListRefinement.StepCopy` | afl/container/ptrmultilistbase.hpp:127-132 | the same for copying an iterator, registered or not |
| `ListRefinement.StepAssign` | afl/container/ptrmultilistbase.cpp:22-31 | the same for assignment between any two live iterators, itself included |
| `ListRefinement.StepDestroy` | afl/container/ptrmultilistbase.hpp:120-123 | the same for destroying an iterator |
| `ListRefinement.StepClear` | afl/container/ptrmultilistbase.cpp:70-79 | the same for clear |
| `ListRefinement.Perform` | afl/container/ptrmultilistbase.cpp:20-217 | the step taken is the one the command names, on the iterators it names, and the iterators held afterwards are the old ones with the new one added or the destroyed one removed; the heap mirrors the next state and deleted nodes stay deleted |
| `ListRefinement.NoDanglingOnHeap` | afl/container/ptrmultilistbase.hpp:15-27 | whenever the heap mirrors a run state, both pointers of every live iterator are null or nodes owned by the list |
| `ListRefinement.Replay` | afl/container/ptrmultilistbase.cpp:20-217 | every program of list and iterator operations on the heap is the run its commands name, one step for each command whose indexes are in range: the heap mirrors the state that run reaches, the program holds the iterators the commands leave it with, deleted nodes belong to no list, and no iterator refers to one |
| `MultiListSorting.InsertKeepsOrder` | afl/container/ptrmultilist.hpp:199-205 | inserting the first remaining element at the first place where nothing precedes it keeps both parts of the merge sorted |
| `MultiListSorting.AdvanceKeepsOrder` | afl/container/ptrmultilist.hpp:201-203 | skipping a preceding element keeps the merge invariant |
| `MultiListSorting.MergeOne` | afl/container/ptrmultilist.hpp:199-205 | one round of merge through the live iterator |
| `MultiListSorting.Merge` | afl/container/ptrmultilist.hpp:196-206 | for a strict weak order and sorted lists: sorted result, elements are exactly those of both lists, other list empty, no iterator lost |
| `MultiListSorting.SplitLoop` | afl/container/ptrmultilist.hpp:170-177 | exactly the elements at odd indexes move over, in order, and those at even indexes stay, through an iterator whose element is extracted under it |
| `MultiListSorting.SplitNext` | afl/container/ptrmultilist.hpp:173-177 | one round on values: the element under the iterator is the next one, and moves over or stays |
| `MultiListSorting.Sort` | afl/container/ptrmultilist.hpp:168-187 | for every strict weak order and length: terminates, leaves a permutation in which no later element precedes an earlier one, and keeps other iterators registered |
| `MultiListSorting.SortedNumbers` | afl/container/ptrmultilist.hpp:168-187 | for numbers ordered by less-than, sorted means ascending |
| `RawStreams.OverwriteTwice` | afl/io/bufferedstream.cpp:231-242 | writing two pieces in sequence is writing them at once |
| `RawStreams.OverwriteExactly` | afl/io/bufferedstream.cpp:48-74 | a write puts exactly its data at its position, leaves all other bytes alone, extends the content as far as needed and fills a gap with zeros |
| `RawStreams.Stream.FullWrite` | afl/io/bufferedstream.cpp:231-242 | retries partial writes until everything is written |
| `BufferedStreams.BufferedStream.SetMode` | afl/io/bufferedstream.cpp:169-218 | changing mode changes nothing a user can see; writing mode is refused exactly when the stream cannot be written |
| `BufferedStreams.BufferedStream.ReadByte` | afl/io/bufferedstream.cpp:145-154 | the byte at the position, null exactly at the end |
| `BufferedStreams.BufferedStream.PeekByte` | afl/io/bufferedstream.cpp:157-166 | the same byte without moving |
| `BufferedStreams.BufferedStream.Read` | afl/io/bufferedstream.cpp:34-45 | as many bytes as there are up to n, exactly those of the content |
| `BufferedStreams.BufferedStream.Write` | afl/io/bufferedstream.cpp:48-74 | the visible content is overwritten at the visible position by exactly the data; between calls the write buffer is never full |
| `BufferedStreams.BufferedStream.SetPos` | afl/io/bufferedstream.cpp:77-81 | moves the visible position only |
| `BufferedStreams.BufferedStream.Flush` | afl/io/bufferedstream.cpp:138-142 | afterwards the underlying stream has the visible content and position |
| `BufferedStreams.BufferedStream.GetPos` | afl/io/bufferedstream.cpp:84-98 | the visible position in every mode |
| `BufferedStreams.BufferedStream.GetSize` | afl/io/bufferedstream.cpp:101-113 | the visible size, except that in writing mode the position counts as written |
| `BufferedStreams.BufferedStream.RefillBuffer` | afl/io/bufferedstream.cpp:221-228 | invisible to the user; empty only at the end |
| `BufferedStreams.BufferedStream.FlushBuffer` | afl/io/bufferedstream.cpp:231-242 | the buffered bytes reach the stream in full |
| `BufferedStreams.Perform` | afl/io/bufferedstream.cpp:34-242 | each operation returns and changes exactly what it does on the plain byte sequence |
| `BufferedStreams.Replay` | afl/io/bufferedstream.cpp:34-242 | for every sequence of operations all results and the final state equal those on the unbuffered bytes, whatever the partial reads and writes |
| `BufferedStreams.ReadFrom` | afl/io/bufferedstream.cpp:34-45 | after any run a read from a position returns the bytes of the content from there, up to the end |
| `BufferedStreams.WriteThenRead` | afl/io/bufferedstream.cpp:34-74 | after any run on a writable stream, what is written at a position is read back from there |
| `BufferedStreams.WriteLeavesRest` | afl/io/bufferedstream.cpp:34-74 | a write changes nothing outside its range: older bytes are read as before, a gap as zeros |
| `BufferedStreams.SizeExactly` | afl/io/bufferedstream.cpp:101-113 | in every run the reported size is the size of the content if and only if the last operation other than a query or a read of nothing is not an empty write at a position past the end |
| `BufferedStreams.EmptyWritePastEndMisreportsSize` | afl/io/bufferedstream.cpp:101-113 | a concrete run (seek to 100, empty write) after which the reported size is 100 for an empty file |
| `BufferedStreams.SizeExactInRuns` | afl/io/bufferedstream.cpp:101-113 | in every run without empty writes the reported size is right |
| `Utf8Codec.AppendOne` | afl/charset/utf8.cpp:10-37 | appends exactly the multi-byte form, two to seven bytes |
| `Utf8Codec.Append` | afl/charset/utf8.cpp:48-69 | appends exactly the encoding under the flags: escape, surrogate pair, encoded zero, plain |
| `Utf8Codec.Utf8Reader.ParseRune` | afl/charset/utf8reader.cpp:100-204 | the loop computes the rune, first byte and size that the recursive definition gives, errors included |
| `Utf8Codec.Utf8Reader.EatRune` | afl/charset/utf8reader.cpp:22-73 | returns the rune and consumes exactly its bytes, with the surrogate lookahead |
| `Utf8Codec.Parse` | afl/charset/utf8reader.cpp:100-204 | consumes at least one byte of a non-empty text and never more than there are |
| `Utf8Codec.Count` | afl/charset/utf8reader.cpp:82-91 | the number of runes of the decoded text; the loop ends |
| `Utf8RoundTrip.ContinueTail` | afl/charset/utf8.cpp:33-36 | reading back the continuation bytes of any value gives the value |
| `Utf8RoundTrip.TailContinue` | afl/charset/utf8reader.cpp:165-181 | conversely, continuation bytes that merge into a value are the ones the encoder writes |
| `Utf8RoundTrip.EncodeOneOfParse` | afl/charset/utf8reader.cpp:111-181 | a minimal multi-byte form is the encoding of what it parses to |
| `Utf8RoundTrip.DecodeThenEncode` | afl/charset/utf8reader.cpp:22-73 | byte transparency: for every byte string, valid or not, decoding and encoding under error escapes (with or without non-characters) gives back the bytes |
| `Utf8RoundTrip.WitnessFails` | afl/charset/utf8reader.cpp:183-199 | for every other flag set a concrete byte string that does not come back |
| `Utf8RoundTrip.LargestIsNonCharacter` | afl/charset/utf8reader.cpp:192-193 | comparing with >= or > against the largest code point rejects the same runes |
| `Utf8RoundTrip.TransparentExactly` | afl/charset/utf8reader.cpp:100-204 | transparency for all byte strings holds if and only if the flags are one of those two sets |
| `Utf8RoundTrip.EatOfEncode` | afl/charset/utf8.cpp:48-69 | a clean rune is read back from its encoding whatever follows, under every flag set |
| `Utf8RoundTrip.EncodeThenDecode` | afl/charset/utf8.cpp:48-69 | for every flag set and every sequence of clean runes decoding the encoding is the identity (section 3 of RFC 3629 is the plain case) |
| `Utf8RoundTrip.ReadAlone` | afl/charset/utf8reader.cpp:22-204 | a byte from 0x80 up is read as one byte if and only if it does not start a rune with the bytes that follow: a condition on lead byte, continuation bytes, range and flags |
| `Utf8RoundTrip.SequenceExactly` | afl/charset/utf8.cpp:48-69 | for every flag set and every sequence of runes, decoding the encoding gives the sequence back if and only if each rune is clean, or an escaped error character whose byte does not start a rune with the bytes that follow |
| `Utf8Forms.EncodeExactly` | afl/charset/utf8.cpp:10-69 | what is written for every rune under every flag set, byte by byte: escape byte, two three-byte forms, single byte, two-byte zero, or the shortest form |
| `Utf8Forms.ParseForm` | afl/charset/utf8reader.cpp:100-204 | each form of each value, shortest or not, reads as the value exactly when the flags allow it, and otherwise as an error on its first byte |
| `Utf8Forms.ParseIsForm` | afl/charset/utf8reader.cpp:100-204 | nothing else is read: behind a byte from 0x80 up there is an allowed form or an error |
| `Utf8Forms.SingleByte` | afl/charset/utf8reader.cpp:22-73 | whatever the flags: a byte below 0x80 is itself, and any other byte read alone is 0xEF00 plus the byte |
| `Utf8Forms.EatForm` | afl/charset/utf8reader.cpp:22-73 | a form of a value that is no surrogate: the value and all its bytes if allowed, else an error of one byte |
| `Utf8Forms.EatSurrogate` | afl/charset/utf8reader.cpp:22-73 | a surrogate that does not pair up is itself exactly when non-characters are allowed |
| `Utf8Forms.EatPair` | afl/charset/utf8reader.cpp:22-73 | where surrogates pair up, two halves are one rune, and a first half without a second is an error |
| `Utf8RoundTrip.UnescapedExactly` | afl/charset/utf8.cpp:48-69 | without escaped error characters that is: if and only if every rune is clean |
| `Utf8RoundTrip.UncleanIsLost` | afl/charset/utf8reader.cpp:183-199 | a rune that is neither clean nor escaped never comes back first, whatever follows |
| `Utf8RoundTrip.SingleRuneExactly` | afl/charset/utf8reader.cpp:183-199 | a single rune survives if and only if it is clean, or an error character under error escapes |
| `Utf8RoundTrip.EscapedRunesCanMerge` | afl/charset/unicode.hpp:96-112 | two escaped error characters side by side can spell another rune, so clean is needed in sequences |
| `Utf8Positions.CharToBytePos` | afl/charset/utf8.cpp:187-202 | the byte offset after that many runes |
| `Utf8Positions.ByteToCharPos` | afl/charset/utf8.cpp:160-176 | the number of runes that begin before that byte |
| `Utf8Positions.CharAt` | afl/charset/utf8.cpp:134-149 | the rune of the decoded text at that index, 0 outside |
| `Utf8Positions.SubstrMemory` | afl/charset/utf8.cpp:101-123 | exactly the bytes between two rune boundaries, also when the shortcut is taken |
| `Utf8Positions.PositionsGalois` | afl/charset/utf8.cpp:160-202 | the two position functions form a Galois connection |
| `Utf8Positions.RunesBeforeOffset` | afl/charset/utf8.cpp:160-202 | byte position of n runes converted back is min(n, length) |
| `Utf8Positions.OffsetRunesBefore` | afl/charset/utf8.cpp:160-202 | rune position of a byte converted back is the least rune boundary at or after it |
| `Utf8Positions.EatCut` | afl/charset/utf8reader.cpp:22-73 | cutting the text behind a rune does not change how it is read |
| `Utf8Positions.SubstrRunes` | afl/charset/utf8.cpp:101-123 | a substring decodes to exactly the runes asked for |
| `Adler32.DeferralLimit` | afl/checksums/adler32.cpp:25-31 | n bytes can be added without reduction, for all messages of that length and all 16-bit start values, without leaving 32 bits, if and only if n <= 5552 |
| `Adler32.BoundIsReached` | afl/checksums/adler32.cpp:25-29 | n bytes of 255 from start values 65535 reach the bounds on both sums exactly |
| `Adler32.BoundHolds` | afl/checksums/adler32.cpp:25-29 | no other message or start values exceed them |
| `Adler32.AddOne` | afl/checksums/adler32.cpp:30-36 | one round, with the reduction when it is due, fits into 32 bits and keeps the sums right |
| `Adler32.AddBytes` | afl/checksums/adler32.cpp:22-37 | no addition overflows from any start value, and the deferred sums are right modulo 65521 |
| `Adler32.Add` | afl/checksums/adler32.cpp:19-41 | equals the definition that reduces after every byte (sections 2.2 and 8.2 of RFC 1950) |
| `Adler32.ChecksumChains` | afl/checksums/adler32.cpp:19-41 | splitting the message anywhere and chaining gives the same checksum |
| `Adler32Closed.ChecksumClosed` | afl/checksums/adler32.cpp:19-41 | the low half is the plain sum of the bytes, the high half the sum of byte i counted n - i times plus n times the start, each modulo 65521, for every message and start value |
| `Crc.LookupIsSteps` | afl/checksums/crc32.cpp:52-62 | a table lookup and a shift equal that many single-bit steps, for every polynomial and width |
| `Crc.RoundIsFeedBits` | afl/checksums/crc32.cpp:20-22 | one round of add is eight bits through the shift register |
| `Crc.ComputeEntry` | afl/checksums/crc16.cpp:53-62 | the inner loop computes the table entry |
| `Crc.CrcTable.constructor` | afl/checksums/crc32.cpp:53-62 | all 256 entries are right for the polynomial |
| `Crc.CrcTable.AddByte` | afl/checksums/crc32.cpp:21-21 | one round of the loop is one byte through the shift register |
| `Crc.CrcTable.AddBytes` | afl/checksums/crc32.cpp:20-22 | the loop is the message through the shift register |
| `Crc.CrcTable.Add` | afl/checksums/crc32.cpp:17-24 | the table-driven checksum equals the bit-serial register, complemented (CRC-32) or not (CRC-16) |
| `Crc.ChecksumChains` | afl/checksums/crc16.cpp:17-24 | splitting the message anywhere and chaining gives the same checksum |
| `CrcRemainder.FeedDivides` | afl/checksums/crc32.cpp:17-24 | the shift register divides: dividend = quotient * generator + register, as polynomials over two elements |
| `CrcRemainder.ChecksumIsRemainder` | afl/checksums/crc32.cpp:17-24 | the checksum is the remainder of start value and message divided by the generator, for every polynomial, start and message, complemented at both ends in CRC-32 |
| `CrcRemainder.OnlyRemainder` | afl/checksums/crc32.cpp:17-24 | quotient and remainder of such a division are unique |
| `Padding.BigEndianValue` | afl/checksums/sha1.cpp:275-277 | the length field holds the number modulo 256^k |
| `Padding.LittleIsReversed` | afl/checksums/md5.cpp:178-180 | the MD5 length field is the big-endian one reversed |
| `Padding.ShiftedCount` | afl/checksums/md5.cpp:178-180 | shifting the 64-bit byte count left by three in 64 bits gives the right length bytes for every message length |
| `Padding.PadIsLeast` | afl/checksums/sha1.cpp:279-290 | padding ends on a block boundary with the length field last, and no shorter padding does |
| `Padding.PadLength` | afl/checksums/md5.cpp:182-185 | the table slice of MD5 and SHA-1 is that least padding |
| `Padding.PadFromTable` | afl/checksums/md5.cpp:178-188 | the table slice and the shifted 64-bit count together are the padding of the message, for MD5 and SHA-1 |
| `Padding.AbsorbMore` | afl/checksums/md5.cpp:132-155 | taking bytes into the partial block keeps the meaning of the state for every continuation |
| `Padding.AbsorbBlock` | afl/checksums/md5.cpp:146-151 | compressing a complete block keeps it too |
| `Padding.AbsorbedAll` | afl/checksums/md5.cpp:173-196 | once the padded message is absorbed the state is the fold over its blocks |
| `Padding.Completed` | afl/checksums/sha1.cpp:271-291 | once the padded message is absorbed the partial block is empty and the state is final |
| `PaddingForms.PadBytes` | afl/checksums/sha1.cpp:271-291 | the padding byte by byte: 0x80, zeros, and the digits of the bit length in base 256 |
| `PaddingForms.LastBytes` | afl/checksums/md5.cpp:178-188 | the bit length stands at the end, low byte first in MD5 and high byte first in SHA-1 and SHA-2 |
| `PaddingForms.FoldIsChain` | afl/checksums/md5.cpp:132-155 | folding over whole blocks gives the last state of the chain in which each state comes from the previous one and the next block |
| `PaddingForms.FinalIsChain` | afl/checksums/md5.cpp:178-188 | the final state is the end of that chain over the padded message, from the initial state |
| `Md5.Md5.Add` | afl/checksums/md5.cpp:132-155 | the object stands for the message with the data appended |
| `Md5.Md5.Finish` | afl/checksums/md5.cpp:178-188 | the final state is the compression function folded over the blocks of the once-padded message |
| `Md5.Md5.GetHash` | afl/checksums/md5.cpp:173-196 | writes the digest truncated to the buffer and leaves the object unchanged |
| `Sha1.Sha1.Add` | afl/checksums/sha1.cpp:75-97 | the object stands for the message with the data appended |
| `Sha1.Sha1.PadMessage` | afl/checksums/sha1.cpp:271-291 | the final state is the fold over the blocks of the once-padded message |
| `Sha1.Sha1.GetHash` | afl/checksums/sha1.cpp:114-122 | writes the digest truncated to the buffer and leaves the object unchanged |
| `Sha2.CountOn` | afl/checksums/sha2core.hpp:92-95 | the two counter words with carry count bits modulo 2^128 |
| `Sha2.PackedLength` | afl/checksums/sha2core.hpp:105-128 | the packed counter words are the length field of either variant |
| `Sha2.Sha2.Add` | afl/checksums/sha2core.hpp:83-103 | the object stands for the message with the data appended; the loop ends |
| `Sha2.Sha2.Pad` | afl/checksums/sha2core.hpp:105-128 | byte-wise padding stops after the least number of zeros and the final state is the fold over the padded message |
| `Sha2.Sha2.GetHash` | afl/checksums/sha256.cpp:58-65 | writes the digest into the buffer word by word, a partial last word as zeros, and leaves the object unchanged |
| `Sha2.PackArray` | afl/bits/pack.hpp:55-69 | whole words of the input as far as the buffer goes, then zeros |
| `Sha2.TruncatedExactly` | afl/bits/pack.hpp:55-69 | the buffer gets the truncated digest if and only if the digest bytes of its partial last word are zero, in particular for buffers of whole words |
| `Sha2.BytesOfBuffer` | afl/bits/pack.hpp:55-69 | byte by byte: digest bytes in whole words of four (64-byte blocks) or eight bytes, zeros behind them |
| `HashRuns.Md5OfPieces` | afl/checksums/md5.cpp:132-196 | however the message is cut into add calls, with getHash in between, the digest is that of the whole message |
| `HashRuns.Sha1OfPieces` | afl/checksums/sha1.cpp:75-122 | the same for SHA-1 |
| `HashRuns.Sha2OfPieces` | afl/checksums/sha2core.hpp:83-128 | the same for SHA-2 |
| `Hmac.MaskedKey` | afl/checksums/hash.cpp:41-53 | the masked, zero-filled key over a block |
| `Hmac.Hash.ComputeHMAC` | afl/checksums/hash.cpp:20-64 | refused exactly for unsupported sizes, and otherwise leaves a state whose hash is the HMAC of section 2 of RFC 2104, long keys hashed first |
| `Hmac.Hash.ComputeBlock` | afl/checksums/hash.cpp:81-111 | one block T_i: the exclusive or of the iterates, the index as four bytes |
| `Hmac.Hash.ComputePBKDF2` | afl/checksums/hash.cpp:68-115 | fills the whole buffer with the truncated T_1, T_2, ... of section 5.2 of RFC 2898; refused exactly for a salt over 128 bytes or, with room to fill, unsupported sizes; no output on refusal |
| `Hmac.DerivedFrom` | afl/checksums/hash.cpp:79-115 | any sufficient number of blocks gives the same key bytes |
| `HmacForms.XorOfBytes` | afl/checksums/hash.cpp:44-51 | bit by bit the mixing is exclusive or: set where the bits differ, neutral with zero, undone by repeating |
| `HmacForms.EmptyKey` | afl/checksums/hash.cpp:41-64 | the empty key is masked to bytes 0x36 inside and 0x5C outside |
| `HmacForms.EqualKeys` | afl/checksums/hash.cpp:33-53 | a short key equals the same key filled up with zeros, a key over a block equals its hash |
| `HmacForms.WholeKey` | afl/checksums/hash.cpp:41-64 | a key of a whole block is mixed with both masks byte by byte, the inner hash comes first |
| `HmacForms.DerivedBlock` | afl/checksums/hash.cpp:79-115 | block i of the derived key, counted from 1, is T_i |
| `HmacForms.FewIterations` | afl/checksums/hash.cpp:81-97 | zero or one iteration gives the keyed hash of salt and index, highest byte first; two mix it with its own keyed hash |
| `HmacForms.OneMoreIteration` | afl/checksums/hash.cpp:97-111 | each further iteration mixes in the next iterate byte by byte |
| `Operations.OperationList.ExtractByController` | afl/async/operationlist.hpp:110-122 | takes the first operation of the controller if there is one; all others keep their order |
| `Operations.OperationList.Remove` | afl/async/operationlist.hpp:126-138 | removes exactly the first occurrence and reports whether there was one |
| `Operations.OperationList.ExtractFront` | afl/async/operationlist.hpp:80-88 | takes the front element, null when empty |
| `Operations.Controllers.Post` | afl/async/controller.cpp:95-102 | the operation goes to the end of its controller's queue and no other queue changes |
| `Operations.Controllers.RevertPost` | afl/async/controller.cpp:105-109 | takes the operation back out of the queue |
| `Operations.Controllers.Poll` | afl/async/controller.cpp:32-39 | delivers the longest completed operation |
| `Operations.Controllers.PollFor` | afl/async/controller.cpp:67-73 | delivers a particular completed operation |
| `ControllerWaits.Elapse` | afl/async/controller.cpp:45-56 | the time that is left is right across wrap-around of the tick counter, and giving up means that the whole timeout has passed |
| `ControllerWaits.WaitAny` | afl/async/controller.cpp:26-58 | whatever others do between the rounds: delivers the front operation at the first look that finds one, gives up exactly at the end of the first round after which the time is over, never earlier; what it then leaves in its queue is exactly what was completed for it in that last round |
| `ControllerWaits.WaitFor` | afl/async/controller.cpp:61-92 | the same for a particular operation; when the wait gives up, the operation stands completed in the queue if and only if it was completed in the last round |
| `ControllerWaits.GivesUpOnTime` | afl/async/controller.cpp:45-56 | a wait in which nothing is completed gives up on the tick its timeout is over, not one tick earlier, and never with an infinite timeout |
| `Ticks.WrapsAround` | afl/async/controller.cpp:45-56 | the tick counter has 32 bits, and adding and subtracting undo each other |
| `ControllerWaits.CompletedTooLate` | afl/async/controller.cpp:61-92 | a wait that times out although its operation is complete |
| `ControllerWaits.MissedExactly` | afl/async/controller.cpp:45-56 | an operation that was not queued at the last look is queued at the end of the round if and only if it was completed in it |
| `Mutexes.StepKeepsOk` | afl/async/mutex.cpp:37-91 | no owner exactly at nesting level 0 and then nobody waits; no waiter belongs to the owner: kept by every waitAsync, post and cancel |
| `Mutexes.StepBalances` | afl/async/mutex.cpp:37-83 | each step changes a controller's holdings by its grants minus its releases |
| `Mutexes.RunBalances` | afl/async/mutex.cpp:37-91 | in every run the nesting level of the owner is its grants minus its releases, and everybody else has none |
| `Mutexes.MutualExclusion` | afl/async/mutex.cpp:37-91 | at no time do two controllers have unreleased grants |
| `Mutexes.HandOver` | afl/async/mutex.cpp:62-74 | the last release goes to the first in the waiting list, grants all of its operations in order and no others, and the rest keeps its order |
| `Mutexes.ReleasedInTheEnd` | afl/async/mutex.cpp:57-79 | after as many posts as the owner holds, the first in the waiting list owns the mutex |
| `Mutexes.StepConserves` | afl/async/mutex.cpp:37-91 | one step leaves every operation waiting, granted or taken back, with nothing gained or lost |
| `MutexAccounts.RunAccounts` | afl/async/mutex.cpp:37-91 | in every run, with deliveries, every issued operation is waiting, withdrawn or granted, and every granted one is queued, delivered or revoked |
| `MutexAccounts.InOnePlace` | afl/async/mutex.cpp:37-91 | in every run an operation issued once is in exactly one of these places |
| `MutexAccounts.WaitersInOrder` | afl/async/mutex.cpp:37-91 | in every run the waiting list holds its operations in the order of issue |
| `MutexAccounts.LongestWaiterNext` | afl/async/mutex.cpp:62-74 | in every run the last release makes that controller owner whose operation has waited longest: it was issued before every operation that goes on waiting |
| `MutexAccounts.OvertakesExactly` | afl/async/mutex.cpp:70-74 | an operation overtakes an earlier one of another controller if and only if its own controller is first in line |
| `MutexAccounts.Overtaken` | afl/async/mutex.cpp:70-74 | a run in which that happens |
| `MutexAccounts.TimedOutWait` | afl/async/mutex.cpp:24-34 | a wait that gave up and cancels, whatever others did after its last look, leaves its controller owner of the mutex if and only if the grant came after that look, and otherwise neither owner nor waiting |
| `Mutexes.CancelReleasesExactly` | afl/async/mutex.cpp:86-91 | a cancel changes nobody's holdings; it gives up a claim if and only if the operation is still waiting, and hides a grant if and only if the operation stands in the caller's queue |
| `Mutexes.CancelKeepsBalance` | afl/async/mutex.cpp:86-91 | in every run a cancel leaves grants and releases as they are, so a cancelled grant has to be released all the same |
| `Mutexes.CancelAfterGrantKeepsOwner` | afl/async/mutex.cpp:86-91 | a concrete run after which nobody knows to own the mutex and another controller waits for it |
| `Mutexes.Mutex.WaitAsync` | afl/async/mutex.cpp:37-54 | nested acquisition, first acquisition or queueing: the objects move to the next state of the run and the invariant holds |
| `Mutexes.Mutex.GrantNested` | afl/async/mutex.cpp:70-74 | the loop grants exactly the waiters of the new owner, in order, and ends |
| `Mutexes.Mutex.Post` | afl/async/mutex.cpp:57-83 | the objects move to the next state of the run, hand-over loop included, and the invariant holds; a post by a stranger changes nothing |
| `Mutexes.Mutex.Cancel` | afl/async/mutex.cpp:86-91 | the operation leaves the waiters and the queue of completed operations; ownership stays |
| `Mutexes.Replay` | afl/async/mutex.cpp:37-91 | every sequence of operations on a new mutex ends in the state of its run, so that the laws of runs hold of the objects |
| `Ledgers.BookBalances` | afl/async/controller.cpp:26-109 | over every sequence of posts, deliveries and reverted posts, an operation posted is queued with its own controller, delivered or revoked |
| `Ledgers.BookTotals` | afl/async/controller.cpp:26-109 | the same in total: what was posted is what is queued, delivered and revoked |
| `Semaphores.StepKeepsBalance` | afl/async/semaphore.cpp:23-71 | each step keeps the token balance and the order of grants |
| `Semaphores.StepAccounts` | afl/async/semaphore.cpp:23-71 | each step keeps the account of where an operation is |
| `Semaphores.RunKeeps` | afl/async/semaphore.cpp:23-71 | in every run: positive value means no waiter; initial value plus posts equals value plus grants; grants follow the order of issue; every operation is waiting, withdrawn or granted, and granted ones are queued, delivered or revoked |
| `Semaphores.DeliveredOnce` | afl/async/controller.cpp:26-109 | an operation issued once is delivered at most once, and exactly once if granted, out of the queue and not revoked |
| `Semaphores.CancelRevokesExactly` | afl/async/semaphore.cpp:66-71 | after every run a cancel leaves value and grants as they are, and takes a grant away from its issuer if and only if the operation stands completed in the caller's queue |
| `Semaphores.TokensAccounted` | afl/async/semaphore.cpp:23-71 | in every run initial value plus posts equals value plus queued, delivered and revoked grants |
| `Semaphores.NoTokenLostExactly` | afl/async/semaphore.cpp:66-71 | no token is lost in a run if and only if no cancel comes between the grant of its operation and the delivery |
| `Semaphores.CancelAfterGrantLosesToken` | afl/async/semaphore.cpp:66-71 | the shortest run that loses a token |
| `Semaphores.TimedOutWait` | afl/async/semaphore.cpp:36-48 | a wait that gave up and cancels, whatever others did after its last look, has revoked a grant, token and all, if and only if the grant came after that look; otherwise it is withdrawn and takes no token |
| `Semaphores.TimedOutWaitLosesToken` | afl/async/semaphore.cpp:36-48 | such a run: the token posted just after the last look is gone |
| `Semaphores.Semaphore.Post` | afl/async/semaphore.cpp:23-33 | grants the longest waiter or adds a token, as in the run |
| `Semaphores.Semaphore.WaitAsync` | afl/async/semaphore.cpp:51-63 | takes a token and grants, or queues, as in the run |
| `Semaphores.Semaphore.Cancel` | afl/async/semaphore.cpp:66-71 | the operation leaves the waiters and the queue of completed operations; the value stays |
| `Semaphores.Semaphore.Wait` | afl/async/controller.cpp:32-39 | returns exactly the operation the run records as delivered, and removes it |
| `Semaphores.Semaphore.WaitFor` | afl/async/controller.cpp:67-73 | true exactly when the run records this operation as delivered, and removes it |
| `Semaphores.Replay` | afl/async/semaphore.cpp:23-71 | every sequence of operations on a new semaphore ends in the state of its run |
| `MessageExchanges.Transferred` | afl/async/receiveoperation.cpp:10-15 | what a pair transfers is a prefix that fits, and no longer one does |
| `MessageExchanges.RunPairs` | afl/async/messageexchange.cpp:33-83 | in every run at most one side waits, and the n-th send is paired with the n-th receive, counting those not cancelled while pending |
| `MessageExchanges.WaiterToldFirst` | afl/async/messageexchange.cpp:37-42 | of a pair, the operation that waited is notified first |
| `MessageAccounts.RunBalances` | afl/async/messageexchange.cpp:33-83 | in every run, for every operation: issued sends are pending, withdrawn or transferred, likewise receives, and the notifications of all transfers are queued, delivered or revoked |
| `MessageAccounts.SendIsInOnePlace` | afl/async/messageexchange.cpp:33-46 | a send issued once is in exactly one of these places, and in at most one transfer |
| `MessageAccounts.ReceiveIsInOnePlace` | afl/async/messageexchange.cpp:61-74 | so is a receive issued once |
| `MessageAccounts.NotifiedOnce` | afl/async/messageexchange.cpp:37-42 | an operation issued once is notified once if it is in a transfer and never otherwise |
| `MessageAccounts.WithdrawnForGood` | afl/async/messageexchange.cpp:77-83 | an operation withdrawn by a cancel is in no transfer, then or after any further steps, and is never notified |
| `MessageAccounts.CancelSettlesSend` | afl/async/messageexchange.cpp:77-83 | whatever follows a cancel, a send issued once is among the transferred ones if and only if it was when the cancel came |
| `MessageAccounts.CancelSettlesReceive` | afl/async/messageexchange.cpp:77-83 | the same for a receive issued once |
| `MessageAccounts.CancelAfterTransfer` | afl/async/messageexchange.cpp:77-83 | a run in which the sender cancels after the transfer: the sender gets no notification, the receiver has the message and gets its own |
| `MessageExchanges.ReceiveOperation.CopyFrom` | afl/async/receiveoperation.cpp:10-15 | moves exactly that prefix behind the bytes received before, the rest of the buffer stays, both sides count the same bytes, and the bytes still to send are the ones not moved |
| `MessageExchanges.MessageExchange.SendAsync` | afl/async/messageexchange.cpp:33-46 | pairs with the longest waiting receiver, into whose buffer exactly the transferred bytes go, or waits; queues and notifications are those of the run |
| `MessageExchanges.MessageExchange.ReceiveAsync` | afl/async/messageexchange.cpp:61-74 | pairs with the longest waiting sender, from whose unsent bytes the transferred ones come, or waits; queues and notifications are those of the run |
| `MessageExchanges.MessageExchange.Cancel` | afl/async/messageexchange.cpp:77-83 | the pending or completed operation is taken out as in the run; no byte moves and no counter changes |
| `Timers.TickFollows` | afl/async/timer.cpp:198-230 | the 32-bit update does on the wrapped counter what it does on real time: fires exactly when an interval has passed, throttles exactly when two have, and returns exactly the time to the next firing |
| `Timers.RunKeeps` | afl/async/timer.cpp:135-230 | in every lawful run firings never run ahead of time, and every firing is pending, granted or discarded |
| `Timers.RunConserves` | afl/async/timer.cpp:135-230 | in every run, lawful or not, with deliveries, every firing is a pending signal, granted or discarded by stop |
| `TimerAccounts.SignalsAccounted` | afl/async/timer.cpp:135-230 | in every run the firings are the pending, discarded, queued, delivered and revoked ones |
| `TimerAccounts.WaitersInOrder` | afl/async/timer.cpp:174-194 | in every run the waiting list holds its operations in the order of issue |
| `TimerAccounts.LongestWaiterSignalled` | afl/async/timer.cpp:198-217 | in every run a firing completes the operation that has waited longest: it was issued before every operation that goes on waiting |
| `TimerAccounts.NoSignalLostExactly` | afl/async/timer.cpp:189-194 | no firing is lost in a run if and only if no cancel comes between the grant of its operation and the delivery |
| `TimerAccounts.CancelAfterGrantLosesSignal` | afl/async/timer.cpp:189-194 | a run that loses its only firing |
| `Timers.FiringsTakeTime` | afl/async/timer.cpp:198-230 | after k firings since the start k intervals have passed, across wrap-around and throttling |
| `Timers.FiresExactly` | afl/async/timer.cpp:198-230 | a timer that was never put off has fired exactly as often as whole intervals have passed |
| `Timers.FiringEndsOneShot` | afl/async/timer.cpp:204-217 | a one-shot timer fires once and is idle from then on; a cyclic one keeps running |
| `Timers.DelayIsExact` | afl/async/timer.cpp:220-229 | an update before the returned delay is over does not fire and one from then on does |
| `Timers.Timer.Update` | afl/async/timer.cpp:198-230 | clock and delay are those of the 32-bit clock whose real-time meaning TickFollows proves, and a firing grants the longest waiter or adds a signal |
| `Timers.Timer.WaitAsync` | afl/async/timer.cpp:174-186 | takes a pending signal and grants, or queues |
| `Timers.Timer.Start` | afl/async/timer.cpp:135-145 | new configuration, pending signals stay |
| `Timers.Timer.Stop` | afl/async/timer.cpp:148-158 | inactive, pending signals are taken back |
| `Timers.Replay` | afl/async/timer.cpp:135-230 | every sequence of operations on a new timer, with the time seen modulo 2^32, ends in the state of its run |
| `Timers.Manager.UpdateNext` | afl/async/timer.cpp:103-108 | one round updates one timer, posts its grant behind those of the timers before it, and keeps the least delay |
| `Timers.Manager.Update` | afl/async/timer.cpp:99-110 | updates every timer (clock, signals, waiters), sends out the grants in the order of the timers, and returns the least of their delays, infinite when there is none |
| `GzipHeader.OutcomeOfPieces` | afl/io/inflatetransform.cpp:130-240 | cutting the input anywhere makes no difference to where the header machine ends |
| `GzipHeader.MachineIsGrammar` | afl/io/inflatetransform.cpp:134-230 | for every input the machine ends exactly where the header of section 2.3 of RFC 1952 ends, rejects exactly bad magic, method or reserved flags, and otherwise wants more |
| `GzipForms.WrittenIsRead` | afl/io/inflatetransform.cpp:134-230 | a header written from any fields (extra data with its length low byte first, name, comment, checksum) is accepted and ends where it was written to end, whatever follows |
| `GzipForms.ReadIsWritten` | afl/io/inflatetransform.cpp:134-230 | every accepted header was written from some fields |
| `GzipForms.AcceptedExactly` | afl/io/inflatetransform.cpp:134-230 | a header of a size is accepted if and only if the input begins with a written header of that size |
| `GzipForms.RejectedExactly` | afl/io/inflatetransform.cpp:145-151 | rejected if and only if ten bytes are there and magic, method or flags are wrong |
| `GzipHeader.HeaderParser.ReadFixed` | afl/io/inflatetransform.cpp:136-156 | the fixed part, with the exception exactly for a bad one |
| `GzipHeader.HeaderParser.ReadLength` | afl/io/inflatetransform.cpp:158-176 | the length of the extra field, if flagged |
| `GzipHeader.HeaderParser.SkipExtra` | afl/io/inflatetransform.cpp:178-184 | the extra field, across pieces |
| `GzipHeader.HeaderParser.SkipTexts` | afl/io/inflatetransform.cpp:186-216 | file name or comment up to the zero byte, if flagged |
| `GzipHeader.HeaderParser.ReadCrc` | afl/io/inflatetransform.cpp:218-230 | the header checksum, if flagged |
| `GzipHeader.HeaderParser.Transform` | afl/io/inflatetransform.cpp:130-240 | the loop does what the machine does on the piece, leaves the same input, and has a decreasing measure |
| `GzipHeader.HeaderOfPieces` | afl/io/inflatetransform.cpp:130-240 | however the stream is cut into pieces the decompressor gets exactly the bytes after the header, and an exception comes exactly for an invalid header |
| `NameMaps.ComputeHash` | afl/data/namequery.cpp:14-31 | the loop computes the hash code |
| `NameMaps.HashIs` | afl/data/namequery.cpp:14-31 | the hash code is the length plus the sums of the first and the last five bytes, modulo 64 |
| `NameMaps.TailQuery` | afl/data/namequery.cpp:44-47 | the query for the rest of a name carries the right hash code |
| `NameMaps.LatestSkipsOthers` | afl/data/namemap.cpp:20-27 | a chain leaves out no name with its hash code |
| `NameMaps.ChainedOn` | afl/data/namemap.cpp:30-38 | adding a name keeps every chain |
| `NameMaps.NameMap.Follow` | afl/data/namemap.cpp:20-27 | the loop ends because chain indexes decrease, and skips no match |
| `NameMaps.NameMap.GetIndexByName` | afl/data/namemap.cpp:20-27 | the highest index with that name, nil exactly when there is none |
| `NameMaps.NameMap.Add` | afl/data/namemap.cpp:30-38 | appends the name under a new index |
| `NameMaps.NameMap.AddMaybe` | afl/data/namemap.cpp:41-48 | appends only a name that is not there |
| `NameMaps.HashTable.Set` | afl/data/hash.cpp:39-51 | the finite map changes at the key only; existing keys keep their indexes |
| `NameMaps.HashTable.Get` | afl/data/hash.cpp:54-57 | the value of the finite map, null for a missing key |
| `NameMaps.HashTable.GetIndexByKey` | afl/data/hash.cpp:60-69 | found exactly for keys of the map, with the slot that holds its value |
| `NameMaps.GetAfterSets` | afl/data/hash.cpp:39-57 | after any sequence of sets a key has the value last set for it |

## Left out

- `swapElements`, `front`, equality of iterators and failing allocations in the list: they
  would only add easy members; iterators registered in several lists at once do not exist.
- Nodes that refer to a position as "pointer to pointer" are modelled as "predecessor or
  head"; the address arithmetic behind it is not.
- Errors of the stream below a BufferedStream other than a missing write capability,
  `createFileMapping`, capabilities and names.
- Code page and transliteration tables, and the string overloads that forward to the byte
  versions.
- Bit masks and shifts of the codec are written as arithmetic, CRC registers as lists of bits
  of any width of at least eight, exclusive or digit by digit.
- The round functions and constants of MD5, SHA-1 and SHA-2, and the packing of their state
  words into the digest.
- Hmac.Hash.ComputePBKDF2: takes salt and password as values, so a buffer that overlaps them
  is not modelled; hash sizes are positive, as the code asserts.
- ControllerWaits.WaitAny and WaitFor: what other threads do while a controller sleeps, and the
  ticks it reads, are a list of rounds, each shorter than a turn of the tick counter; a wait
  that goes on after the last round has no answer yet.
- The total time of `fullSend` and `fullReceive`.
- All controllers' queues are one map from controllers to queues; custom notifiers are not
  part of this model.
- MessageExchanges.MessageExchange.SendAsync and ReceiveAsync: an operation is not queued
  twice at the same time.
- Mutex, semaphore and signal counters do not wrap at 2^32.
- Timers.Manager.Update: removing a timer, and the thread that calls the update, are not part of
  this model.
- Timers.RunKeeps: assumes intervals of at least 1, ticks not earlier than the last check,
  and an update of a running timer before the tick counter has gone all the way round.
- Decompression, the gzip trailer, and the zlib and raw personalities of InflateTransform,
  which have no header of this kind.
- NameMaps.NameMap.Add: asks for room below the nil index; swapping maps, and setting
  values by index are not part of this model.
- Operating system plumbing: files, directories, sockets, threads.
