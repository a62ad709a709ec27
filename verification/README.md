# Verified models of the platform layer

Dafny models of the base layer of a game client and server (a fork of DDNet), with proofs of what that
layer is relied on for: that the asynchronous log writer loses nothing and stops cleanly, that the text
codecs are inverses of each other, that hashes and edit distances are the ones they are named after,
that an interrupted update or download never leaves a damaged file in place.

Code that changes state step by step is modelled by methods and classes that change state in the same
steps, each proved against a specification function. Concurrent code is modelled by a state machine
whose steps are the atomic actions of its threads; the theorems are about every interleaving.
`dafny verify dfyconfig.toml` checks everything.

| file | what it models |
|---|---|
| `AioRing.dfy` | the growing ring buffer of the asynchronous writer, refined to a queue of bytes |
| `AioProtocol.dfy` | its protocol of one writer thread and any number of clients: lock, semaphore, shutdown, reference count |
| `AioRingRuns.dfy` | the protocol with the ring itself in its state |
| `AioShutdown.dfy` | the end of the writer: when its file is complete, and that it terminates under every scheduler |
| `AioCalls.dfy` | what the calls of the clients amount to over a whole run |
| `AsyncLog.dfy` | the logger that writes one record in several pieces under one lock |
| `Utf8.dfy`, `Utf8Errors.dfy`, `Utf8Copy.dfy` | the UTF-8 decoder, encoder and validity check; bounded copy, append and truncation |
| `EditDistance.dfy` | the edit distance with two rolling rows in one flat buffer |
| `Base64.dfy`, `Base64Radix.dfy` | base 64 in both directions, and what it means |
| `Sha256.dfy`, `Sha256Constants.dfy` | the streaming SHA-256, and where its constants come from |
| `FilenameOrder.dfy` | the natural order of filenames |
| `WindowsArgs.dfy`, `ConsoleArgs.dfy` | quoting of Windows command lines and of console arguments |
| `NetAddrText.dfy`, `NetAddr.dfy`, `NetAddrForms.dfy` | printing and parsing of network addresses |
| `AndroidSync.dfy` | the crash-tolerant unpacking of assets on Android, as a state machine |
| `AndroidStorage.dfy` | the program that does it, file operation by file operation, each of which may fail |
| `AndroidUpdates.dfy` | an update that is cut off and followed by another version |
| `AndroidChains.dfy` | any number of versions in a row, each of which is cut off |
| `HttpDownload.dfy` | receiving, checking and committing a download |
| `FutureLogger.dfy` | the hand-over from buffering to direct logging |
| `Easter.dfy` | the formula for Easter Sunday |
| `TidyLines.dfy`, `TidyAlphabetical.dfy`, `TidyReports.dfy`, `TidyFixes.dfy` | the script that keeps marked regions of source files sorted |
| `Machine.dfy` | bytes, 32-bit unsigned integers, `mem_copy` |

## What turned out not to hold without a condition

- `next_buffer_size` comes to an end exactly if the needed size is at most 2^31; past that the doubling
  wraps to zero (`AioRing.NextBufferSizeTerminatesIff`). `aio_write_unlocked` finds a buffer with room
  for everything exactly if the total is below 2^31: above, the loop does not end, and from 2^32 - 1 on
  the sum itself wraps, so that the loop may end with a buffer that is too small
  (`AioRing.RegrowthFitsIff`).
- `sha256_update` passes its `size_t` length on as a 32-bit number, so a piece is absorbed whole exactly
  if it is shorter than 4 GiB (`Sha256.Sha256State.Update`).
- A console argument comes back whole exactly if it is not empty and has at most 2047 bytes; an empty one
  reads like a missing one (`ConsoleArgs.ArgumentRoundTripIff`).
- A network address is printed and parsed back to an equal one exactly if it has no type bit besides its
  family's, no bytes beyond its family's and no port that was left unprinted
  (`NetAddr.RoundTripIsExactIff`).
- From the moment the writer thread leaves, its file is complete exactly as long as nobody writes another
  byte (`AioShutdown.CompleteIffNothingWrittenLater`); `AioShutdown.LateWriteIsLost` is a run in which a
  byte is lost.
- An update of the app that is cut off is repaired by the next version, whatever that is, exactly if the
  versions are compatible: either the interrupted one has the index of the old one, and so changes nothing,
  or it shares what the new one shares with the old one and has no files that the new one lacks
  (`AndroidUpdates.RepairsIffCompatible`). Going on with the interrupted version always works; going back
  to the old one works exactly if the two have the same files (`AndroidUpdates.SameOrOldVersionNext`).
- If any number of versions in a row are cut off, the next one repairs what they leave behind exactly if two
  things hold: once one of them, the old one included, has a file as the new one wants it, all the later ones
  do; and from the first one on whose index is not that of the old one, none has a file that the new one
  lacks (`AndroidChains.ChainRepairsIffCompatible`).
- `OnValidation(true)` does not look at the state of the request. It leaves the destination as it was, or
  replaced by exactly what a request that stays done has received, exactly if the request is done or nothing
  is moved (`HttpDownload.HttpRequest.OnValidation`). For every other state a request can end in, and any
  data within the size limit, there is one of whose data any part was written, could not be removed, and
  then replaces the destination (`HttpDownload.ValidationOfUnfinished`).
- `str_utf8_encode` produces UTF-8 exactly for the scalar values: surrogates are encoded like any other
  number below 0x10000 (`Utf8.EncoderMeetsGrammar`).

## Model

| member | source | states |
|---|---|---|
| `AioRing.NextBufferSizeTerminatesIff` | src/base/aio.cpp:186-193 | from any ring size, 32-bit doubling reaches the needed size if and only if that is at most 2^31 |
| `AioRing.RegrowthFitsIff` | src/base/aio.cpp:226-252 | with the 32-bit sum and the 32-bit doubling, a size is found that has room for the queue and the data if and only if together they have fewer than 2^31 bytes |
| `AioRing.NextBufferSize` | src/base/aio.cpp:186-193 | the size found is again the initial size times a power of two, is at least what is needed, and less than twice that unless it did not change |
| `AioRing.Ring.Queue` | src/base/aio.cpp:21-36 | the queue a ring stands for; never as long as the buffer, so equal positions mean empty and nothing else |
| `AioRing.AsyncIo.constructor` | src/base/aio.cpp:138-172 | a new ring is valid and empty |
| `AioRing.AsyncIo.BufferLen` | src/base/aio.cpp:174-184 | the length of the queue, wrapped around or not |
| `AioRing.AsyncIo.BufferPtrs` | src/base/aio.cpp:46-61 | the two stretches, one after the other, are the queue |
| `AioRing.AsyncIo.TakeChunk` | src/base/aio.cpp:107-126 | takes the first 64 KiB of the queue or all of it, in order, leaves exactly the rest, and does to the fields what the ring-level step does |
| `AioRing.CopyToLocal` | src/base/aio.cpp:108-125 | the clamped copies of the two stretches are the first 64 KiB of both together, and the clamped lengths add up to that |
| `AioRing.AsyncIo.WriteUnlocked` | src/base/aio.cpp:206-254 | appends the data to the queue, whichever branch is taken, and does to the fields what the ring-level step does |
| `AioRing.AsyncIo.WriteInPlace` | src/base/aio.cpp:211-224 | the branch without regrowth stores the data after the write position and around the end of the buffer, and nowhere else |
| `AioRing.AsyncIo.WriteAcrossEnd` | src/base/aio.cpp:215-223 | the data is split exactly at the end of the buffer |
| `AioRing.AsyncIo.WriteBeforeEnd` | src/base/aio.cpp:222-223 | data that does not cross the end is stored in one piece, even if the position then wraps to zero |
| `AioRing.AsyncIo.Regrow` | src/base/aio.cpp:225-253 | a larger ring, at most twice as large as needed, starts with the queue and the data, and is not full |
| `AioRing.InPlaceAppends` | src/base/aio.cpp:211-224 | storing in place, across the end of the buffer or not, appends to the queue |
| `AioRing.WroteAppends` | src/base/aio.cpp:206-254 | both branches append the data to the queue and leave a ring that is not full |
| `AioRing.TakingTakesChunk` | src/base/aio.cpp:107-126 | advancing the read position modulo the size takes exactly the chunk off the front of the queue |
| `AioProtocol.InvStep` | src/base/aio.cpp:63-136 | every step of every thread keeps the invariant: lock ownership, conservation of bytes, pending wake-ups, closing order, references |
| `AioProtocol.RunKeepsInv` | src/base/aio.cpp:138-172 | the invariant holds in every state of every interleaving that starts with the block `aio_new` returns |
| `AioProtocol.NothingLostOrReordered` | src/base/aio.cpp:107-134 | in every state of every interleaving, file, local chunk and ring together are all writes in lock order |
| `AioProtocol.SessionsContiguous` | src/base/aio.cpp:195-277 | what was written under one lock lies in one piece in the file, whatever the other threads did in between |
| `AioProtocol.NoLostWakeUp` | src/base/aio.cpp:90-105 | a writer parked with the semaphore at 0 and no client about to signal has an empty ring, was not asked to finish, and everything is in the file |
| `AioProtocol.FreedOnceByTheLast` | src/base/aio.cpp:63-76 | the block is freed at most once, only when both owners have dropped it and nobody uses it any more, and it is freed once both have gone |
| `AioProtocol.ClosedFileIsFinal` | src/base/aio.cpp:92-100 | after the writer has left, the file does not change and is never closed a second time |
| `AioProtocol.FinishedFileIsComplete` | src/base/aio.cpp:285-319 | when the writer has left, file and ring together are everything written; the file alone is, if nobody starts writing after the end was announced |
| `AioProtocol.WriterDrainsAndTerminates` | src/base/aio.cpp:78-136 | once `finish` is set, the writer alone drains the ring, closes the file once if the flag says so, drops its reference, and ends within a bounded number of steps; for what sets the flag see `AioCalls` |
| `AioRingRuns.RingStepRefines` | src/base/aio.cpp:78-254 | every step on the ring, with its positions, clamp and regrowth, is the same step on the queue |
| `AioRingRuns.RingRunRefines` | src/base/aio.cpp:78-254 | every interleaving with the ring in the state is an interleaving of the protocol on the queue |
| `AioRingRuns.RingLosesNothing` | src/base/aio.cpp:78-254 | in every interleaving, at every moment, file, local chunk and the bytes between the positions of the ring are all writes in lock order, and the ring is not full |
| `AioRingRuns.RingLosesNoWakeUp` | src/base/aio.cpp:90-105 | a parked writer that nobody is about to wake up has equal positions, and everything is in the file |
| `AioShutdown.CompleteIffNothingWrittenLater` | src/base/aio.cpp:90-100 | from the step at which the writer leaves, the file is complete if and only if no client has written a byte since; it never changes again |
| `AioShutdown.LateWriteIsLost` | src/base/aio.cpp:285-292 | a run in which a byte written after the writer has left never gets to the closed file |
| `AioShutdown.WriterStepsBounded` | src/base/aio.cpp:78-136 | once `finish` is set, in every interleaving with calls of the clients, the writer takes at most three steps for each byte still to be written, and four |
| `AioShutdown.SomethingGoesOn` | src/base/aio.cpp:195-319 | after `finish` is set, until the writer has ended, it or a call in progress is never blocked |
| `AioShutdown.ShutdownTerminates` | src/base/aio.cpp:285-319 | whatever the scheduler does with the writer and the calls in progress, there are only so many steps, and when none is left the writer has ended and everything is in the file |
| `AioCalls.StateOfCalls` | src/base/aio.cpp:285-319 | at every moment of every run, `finish` is CLOSE if somebody has called `aio_close`, otherwise EXIT if somebody has called `aio_wait`, otherwise RUNNING; the thread handle is there until a wait or free; the semaphore counts the signals not waited for |
| `AioCalls.ClosesIffAsked` | src/base/aio.cpp:90-100 | when the writer has left, the file has been closed once if somebody called `aio_close` before that, and otherwise never; before, it is open |
| `AioCalls.WaitReturnsLast` | src/base/aio.cpp:294-308 | whoever has called `aio_wait` gets no further before the writer thread has ended |
| `AioCalls.HoldsWhatWasWritten` | src/base/aio.cpp:78-254 | at every moment of every run, file, local chunk and queue are the data of all calls of `aio_write_unlocked`, in their order |
| `AioCalls.AskedWriterEnds` | src/base/aio.cpp:78-319 | from any moment after a close or wait, if the clients only go on with the calls they are in: the writer ends under every scheduler, with a complete file, closed exactly if a close came before it left |
| `AsyncLog.Log` | src/base/log.cpp:241-267 | a record that is not filtered is queued whole, by writes that are exactly its parts in order; a filtered one queues nothing |
| `AsyncLog.RecordHoldsLine` | src/base/log.cpp:247-266 | a record contains its line unchanged, ends with a line feed, and is at most 24 bytes longer than the line |
| `AsyncLog.SessionGrows` | src/base/log.cpp:247-266 | in any interleaving, what a client writes between taking and giving back the lock is one session, which only it adds to |
| `AsyncLog.RecordStaysWhole` | src/base/log.cpp:247-266 | in any interleaving, a record written part by part under one lock is in the file whole, in one place, as soon as the file reaches so far, and for ever |
| `Utf8.WellFormedMeansUtf8Octets` | src/base/str.cpp:1224-1235 | the well-formed strings are exactly the concatenations of the characters of section 4 of RFC 3629 |
| `Utf8.Decode` | src/base/str.cpp:954-1019 | the state machine computes the decoding function: code point or -1, and where the pointer is left |
| `Utf8.Decoded` | src/base/str.cpp:954-1019 | always moves on by at least one byte, past the terminating NUL only by reading it, and is 0 only there |
| `Utf8.DecodesChars` | src/base/str.cpp:965-1017 | every character of the grammar is read as its code point and in its full length |
| `Utf8.DecodesOnlyChars` | src/base/str.cpp:954-1019 | what is accepted is a character of the grammar: no overlong form, surrogate or number past 0x10FFFF |
| `Utf8.DecoderMeetsGrammar` | src/base/str.cpp:954-1019 | accepted exactly if a character of section 4 of RFC 3629 starts at the position, with its scalar value; an error means that none does |
| `Utf8Errors.ErrorsSkipBeginnings` | src/base/str.cpp:954-1019 | after an error the pointer is behind the longest beginning of a character that is there, or behind one byte if no character begins with it |
| `Utf8.Encode` | src/base/str.cpp:909-940 | stores the encoding at the start of any buffer it fits, leaves the rest alone and returns the number of bytes |
| `Utf8.EncoderMeetsGrammar` | src/base/str.cpp:909-940 | the encoding of a non-negative number is a character of the grammar if and only if the number is a Unicode scalar value, and then it means that value |
| `Utf8.ScalarOfEncodes` | src/base/str.cpp:909-940 | encoding the value of any character of the grammar gives that character back |
| `Utf8.DecodeInvertsEncode` | src/base/str.cpp:909-1019 | encoding and then decoding gives the scalar value back and consumes exactly the encoding, whatever follows |
| `Utf8.Check` | src/base/str.cpp:1224-1235 | ends, and returns 1 if and only if the whole string is well formed |
| `Utf8Copy.StrCopy` | src/base/str.cpp:18-26 | leaves the bytes that fit, repaired and NUL-terminated, and returns their number |
| `Utf8Copy.StrAppend` | src/base/str.cpp:28-43 | leaves what fits of old text and new, repaired and NUL-terminated, also when the old text already fills the buffer |
| `Utf8Copy.FixTruncation` | src/base/str.cpp:1038-1053 | cuts off a last character that does not decode and returns the new length |
| `Utf8Copy.Rewind` | src/base/str.cpp:1116-1125 | goes back to the nearest byte before the cursor that starts a character, or to the beginning |
| `Utf8Copy.Forward` | src/base/str.cpp:1214-1222 | goes to the end of the next character and stays at the terminator |
| `Utf8Copy.Utf8Truncate` | src/base/str.cpp:1021-1036 | leaves the string up to where the code points counted by `PosAfter` end, repaired |
| `Utf8Copy.Utf8CopyNum` | src/base/str.cpp:1237-1253 | leaves the same prefix as the other function, from its own loop |
| `Utf8Copy.PosAfterIsLongest` | src/base/str.cpp:1021-1034 | of a well-formed string, the place where counting stops ends the longest well-formed prefix within both limits |
| `Utf8Copy.RepairCutsStartedChar` | src/base/str.cpp:1038-1053 | cut anywhere, a well-formed string loses exactly the character that the cut went through |
| `Utf8Copy.CopyIsLongestFit` | src/base/str.cpp:18-26 | for every buffer size the copy of a well-formed string is its longest well-formed prefix that fits; all of it if it fits |
| `Utf8Copy.TruncationIsLongestFit` | src/base/str.cpp:1021-1253 | the copy limited to a number of code points is the longest well-formed prefix within that number and the buffer |
| `Utf8Copy.AppendIsLongestFit` | src/base/str.cpp:28-43 | appending well-formed text leaves the longest well-formed prefix of the joined text that fits |
| `EditDistance.DistIsLeastEdits` | src/base/str.cpp:1343-1377 | the distance is the least number of insertions, deletions and substitutions that turn one sequence into the other: that many do, and no fewer |
| `EditDistance.DistIsAttained` | src/base/str.cpp:1369-1373 | gives a list of that many edits |
| `EditDistance.DistAfterEdit` | src/base/str.cpp:1369-1373 | one edit changes the distance from any sequence by at most one |
| `EditDistance.DistIsMetric` | src/base/str.cpp:1347-1357 | zero exactly for equal sequences, symmetric as the swap of the operands needs, and subject to the triangle inequality |
| `EditDistance.Utf32DistBuffer` | src/base/str.cpp:1343-1378 | within the asserted buffer size, two rolling rows and the operand swap yield the distance and leave the operands unchanged |
| `EditDistance.FillTable` | src/base/str.cpp:1358-1376 | the last entry of the last row is the distance, though only two rows are ever kept |
| `EditDistance.FillFirstRow` | src/base/str.cpp:1359-1362 | row 0 of the table |
| `EditDistance.FillRow` | src/base/str.cpp:1365-1374 | overwriting the row before the last one yields the next row of the table |
| `EditDistance.ToUtf32Unchecked` | src/base/str.cpp:1312-1321 | stores the decoded code points and moves the pointer past them, with room for the terminating 0 |
| `EditDistance.Utf8DistBuffer` | src/base/str.cpp:1323-1341 | both strings and the rows fit the asserted size, and the result is the distance of the decoded strings |
| `EditDistance.Utf8Dist` | src/base/str.cpp:1303-1310 | the buffer allocated is large enough for every pair of strings |
| `EditDistance.Utf8DistZeroIffEqual` | src/base/str.cpp:1303-1341 | for well-formed strings the distance is zero if and only if they are equal |
| `Base64.EncodingAt` | src/base/str.cpp:690-740 | every digit of the encoding is that of its group of three bytes, and the places past the data are padding |
| `Base64.StrBase64` | src/base/str.cpp:690-740 | for every buffer size, writes as much of the encoding of section 4 of RFC 4648 as fits, then NUL, though it keeps only 32 bits of what it has read |
| `Base64.DigitAfterShift` | src/base/str.cpp:704-728 | the digit taken from the top of the 32-bit accumulator is the one of the group it belongs to, wrap-around or not |
| `Base64.StrBase64Decode` | src/base/str.cpp:767-834 | the error codes for a bad length and a small buffer, which leave the buffer alone; otherwise the decoding, with nothing behind it touched |
| `Base64.DecodeGroup` | src/base/str.cpp:784-832 | one group of four digits: its bytes, with nothing else touched, or the error for an invalid digit or padding bits that are not zero |
| `Base64.DecodeInvertsEncode` | src/base/str.cpp:690-834 | decoding the encoding of any bytes gives the bytes |
| `Base64.EncodeInvertsDecode` | src/base/str.cpp:767-834 | a text that decodes is the encoding of what it decodes to |
| `Base64.DecodesExactlyEncodings` | src/base/str.cpp:767-834 | a text decodes to given bytes if and only if it is their one encoding; section 3.5 of RFC 4648 asks for that |
| `Base64.GroupEncodes` | src/base/str.cpp:792-831 | a group that decodes has the digits of the bytes it decodes to |
| `Base64.RoomForEncoding` | src/base/str.cpp:779-783 | the room that decoding an encoding asks for is that of whole groups |
| `Base64.RoundTrip` | src/base/str.cpp:690-834 | the two functions called in turn with large enough buffers return the data |
| `Base64Radix.DigitIsOfAlphabet` | src/base/str.cpp:692 | the digits are those of the alphabet of section 4 of RFC 4648, in its order |
| `Base64Radix.EncodingIsNumber` | src/base/str.cpp:690-740 | filled up with zeros to groups of three, the bytes are a number in base 256, and the encoding spells that number in base 64, with '=' for the digits of missing bytes |
| `Sha256.ZeroBytesIsLeast` | src/base/hash_libtomcrypt.cpp:165-180 | the number of zero bytes is the least that section 5.1.1 of FIPS 180-4 allows |
| `Sha256.RotRotates` | src/base/hash_libtomcrypt.cpp:57-62 | the two shifts are a rotation for every amount in use |
| `Sha256.ChMeetsStandard` | src/base/hash_libtomcrypt.cpp:55 | the shorter formula for choice is the standard's |
| `Sha256.MajMeetsStandard` | src/base/hash_libtomcrypt.cpp:56 | the shorter formula for majority is the standard's |
| `Sha256.Sha256State.constructor` | src/base/hash_libtomcrypt.cpp:112-124 | a new state holds the empty message |
| `Sha256.Sha256State.Compress` | src/base/hash_libtomcrypt.cpp:64-108 | one block is hashed in as section 6.2.2 of FIPS 180-4 says |
| `Sha256.RunRounds` | src/base/hash_libtomcrypt.cpp:81-103 | the loop with its rotated registers is the 64 rounds of the standard |
| `Sha256.RunRound` | src/base/hash_libtomcrypt.cpp:82-102 | the macro followed by the moves is one round |
| `Sha256.FillSchedule` | src/base/hash_libtomcrypt.cpp:73-79 | the array is the message schedule of the block |
| `Sha256.Sha256State.Process` | src/base/hash_libtomcrypt.cpp:126-156 | appends to the message the state holds; fewer than 64 bytes stay in the buffer between calls |
| `Sha256.Sha256State.AbsorbBlock` | src/base/hash_libtomcrypt.cpp:133-139 | a whole block straight from the input is appended to the message |
| `Sha256.Sha256State.AbsorbPart` | src/base/hash_libtomcrypt.cpp:142-153 | input collected in the buffer is appended to the message, and a full buffer is hashed |
| `Sha256.Sha256State.Update` | src/base/hash_libtomcrypt.cpp:196-199 | appends as much of the data as the 32-bit length says; all of it if and only if it is shorter than 2^32 bytes |
| `Sha256.AbsorbedAllIff` | src/base/hash_libtomcrypt.cpp:196-199 | a length survives being cut to 32 bits if and only if it is below 2^32 |
| `Sha256.Sha256State.PadToLengthField` | src/base/hash_libtomcrypt.cpp:165-180 | both branches append the 1 bit and the zeros of the standard and leave room for the length |
| `Sha256.Sha256State.Finish` | src/base/hash_libtomcrypt.cpp:158-189 | the result is the SHA-256 digest of the message held |
| `Sha256.HashParts` | src/base/hash_libtomcrypt.cpp:191-206 | for every way of cutting a message into updates the result is the digest of what they take in, which is the whole message if each is below 2^32 bytes |
| `Sha256Constants.ConstantsAreCubeRoots` | src/base/hash_libtomcrypt.cpp:15-30 | the constants are the first 32 bits of the fractions of the cube roots of the first 64 primes, as section 4.2.2 of FIPS 180-4 says |
| `Sha256Constants.InitialIsSquareRoots` | src/base/hash_libtomcrypt.cpp:112-124 | the initial hash value is made of the square roots of the first 8 primes in the same way |
| `Sha256Constants.WordsAreBytes` | src/base/hash_libtomcrypt.cpp:37-54 | words and groups of four bytes determine each other, the first byte being the most significant |
| `Sha256Constants.LengthFieldIsLength` | src/base/hash_libtomcrypt.cpp:42-47 | the eight bytes of the length field are the length in base 256 |
| `FilenameOrder.CompFilenames` | src/base/str.cpp:261-293 | the sign of the result is the lexicographic order of the tokens, digit runs compared by length and then digits; what that means for names is stated by the lemmas from `ZeroIffAlike` to `NumberedNames` |
| `FilenameOrder.CompareNumbers` | src/base/str.cpp:267-286 | two digit runs either decide or are skipped together, with more characters to follow |
| `FilenameOrder.CompareRuns` | src/base/str.cpp:269-276 | the loop ends with the shorter run and has found the first differing digit |
| `FilenameOrder.CompareLaws` | src/base/str.cpp:261-293 | the order of token sequences is total: antisymmetric, zero exactly for equal ones, transitive |
| `FilenameOrder.FilenamesTotallyPreordered` | src/base/str.cpp:261-293 | swapping the operands changes the sign, and the relation is transitive: fit for sorting |
| `FilenameOrder.ZeroIffEqualIgnoringCase` | src/base/str.cpp:261-293 | the comparison is 0 if and only if the names are equal ignoring case |
| `FilenameOrder.ZeroIffAlike` | src/base/str.cpp:288-292 | that is, of the same length and the same characters, but for the case of letters from 'A' to 'Z' |
| `FilenameOrder.CommonPrefix` | src/base/str.cpp:261-293 | what is the same in both names at the beginning, ignoring case, does not matter, unless it ends within a number |
| `FilenameOrder.RunsDecide` | src/base/str.cpp:265-286 | two numbers in the same place compare by their length, then by their value, and if they are the same what follows decides |
| `FilenameOrder.FirstDifferenceDecides` | src/base/str.cpp:288-290 | otherwise the first characters that differ decide, by their codes in lower case |
| `FilenameOrder.NumberedNames` | src/base/str.cpp:261-293 | names with a decimal number in the same place sort by that number: 9 before 10 |
| `WindowsArgs.ArgsToWide` | src/base/windows.cpp:26-71 | the loops with their running counter produce the quoted command line |
| `WindowsArgs.AppendQuoted` | src/base/windows.cpp:37-67 | one argument is appended in quotes, escaped |
| `WindowsArgs.SplitEscaped` | src/base/windows.cpp:40-67 | reading an escaped argument up to its closing quote yields the argument, for any mix of backslashes and quotes |
| `WindowsArgs.SplitQuoted` | src/base/windows.cpp:32-67 | a quoted argument in front of a line is read as that argument, then the line |
| `WindowsArgs.CommandLineRoundTrip` | src/base/windows.cpp:26-71 | the documented rules of `CommandLineToArgvW` give back every list of arguments, empty ones included |
| `ConsoleArgs.StrEscape` | src/base/str.cpp:836-850 | writes the escape of the longest prefix that fits, then NUL, and leaves the pointer there |
| `ConsoleArgs.EscapeFitsIsLongest` | src/base/str.cpp:836-850 | one more character would not fit; so a small buffer never ends in a dangling backslash |
| `ConsoleArgs.GetParsedArgument` | src/base/helper_kz.cpp:117-213 | returns null, the rest of the string, or the buffer with the text of the token asked for |
| `ConsoleArgs.AfterToken` | src/base/helper_kz.cpp:140-163 | skips exactly one token, quoted or not |
| `ConsoleArgs.ReadToken` | src/base/helper_kz.cpp:168-204 | the second pass leaves the unescaped token, cut off at 2047 bytes, NUL-terminated |
| `ConsoleArgs.ReadQuoted` | src/base/helper_kz.cpp:175-193 | unescapes a quoted token as far as the buffer goes |
| `ConsoleArgs.ReadPlain` | src/base/helper_kz.cpp:195-202 | copies a plain token as far as the buffer goes |
| `ConsoleArgs.QuotedTextOfEscaped` | src/base/helper_kz.cpp:144-157 | an escaped text between quotes stands for the text and ends at its closing quote |
| `ConsoleArgs.LineTokens` | src/base/helper_kz.cpp:124-209 | the tokens of quoted arguments joined with spaces are those arguments, and there are no others |
| `ConsoleArgs.ParsedLine` | src/base/helper_kz.cpp:117-213 | what is returned for every index of such a line, out of range and overlong ones included |
| `ConsoleArgs.ArgumentRoundTripIff` | src/base/helper_kz.cpp:117-213 | argument `k` comes back whole if and only if it has from 1 to 2047 bytes |
| `ConsoleArgs.EscapedLaws` | src/base/str.cpp:836-850 | the escape puts a backslash before each quote and each backslash and changes nothing else |
| `ConsoleArgs.ParsedLayout` | src/base/helper_kz.cpp:117-213 | what is returned for every index of a line of bare and quoted words with any white space around them, the last quote maybe missing: the word's text up to 2047 bytes, or the place where the word starts, or null |
| `ConsoleArgs.LayoutTokens` | src/base/helper_kz.cpp:124-209 | token `k` of such a line is word `k`, at its place, and there are no others |
| `ConsoleArgs.EveryLineHasLayout` | src/base/helper_kz.cpp:124-209 | every line there is can be read as such a line |
| `NetAddrText.NumberRoundTrip` | src/base/net.cpp:274 | reading the digits of a number in base 10 or 16 gives the number |
| `NetAddrText.ParsedIpv6` | src/base/net.cpp:464-465 | an address in the grammar of section 2.2 of RFC 4291, compressed or not, always has eight fields |
| `NetAddrText.Ipv6RoundTrip` | src/base/net.cpp:261-277 | whichever run of zeros is compressed, the text is read as the address |
| `NetAddr.LongestZeroRun` | src/base/net.cpp:219-260 | finds the first of the longest runs of zeros, and none if no two neighbouring fields are zero |
| `NetAddr.ZeroRunIsLongest` | src/base/net.cpp:219-260 | the run compressed is the one that sections 4.2.2 and 4.2.3 of RFC 5952 ask for |
| `NetAddr.LongestRunIsUnique` | src/base/net.cpp:219-260 | there is only one such run |
| `NetAddr.StrV6` | src/base/net.cpp:217-282 | for every buffer size, leaves what fits of the canonical text, NUL-terminated |
| `NetAddr.Put` | src/base/net.cpp:261-281 | printing piece by piece into what is left of the buffer leaves what fits of the joined text |
| `NetAddr.FieldPrinted` | src/base/net.cpp:262-276 | one round of the printing loop extends the text by the next field, the colon before it, or the "::" |
| `NetAddr.Str` | src/base/net.cpp:284-311 | prints the text of the address and, in a buffer of `NETADDR_MAXSTRSIZE`, all of it |
| `NetAddr.TextFits` | src/base/types.h:162 | no address, with or without its port, needs more than `NETADDR_MAXSTRSIZE` with its terminator |
| `NetAddr.BytesOfFields` | src/base/net.cpp:299-303 | the fields hold the sixteen bytes without loss |
| `NetAddr.ParseInt` | src/base/net.cpp:313-336 | fails exactly without a leading digit; otherwise the value of all leading digits, and the pointer behind them |
| `NetAddr.AccumulationFitsIff` | src/base/net.cpp:313-336 | no number that the loop arrives at while reading digits exceeds 2^31 - 1 if and only if the whole number does not |
| `NetAddr.ParseUint8` | src/base/net.cpp:346-355 | succeeds exactly for numbers below 256 |
| `NetAddr.ParseUint16` | src/base/net.cpp:357-366 | succeeds exactly for numbers below 65536 |
| `NetAddr.FromStr` | src/base/net.cpp:437-518 | the pointer-advancing parser accepts exactly what the grammar for both families accepts, and reads it as that address |
| `NetAddr.FromStrIpv4` | src/base/net.cpp:488-515 | four numbers, an optional port, and nothing after it |
| `NetAddr.Ipv4RoundTrip` | src/base/net.cpp:286-515 | dotted decimal with or without a port is parsed as those four bytes, padded with zeros, and that port |
| `NetAddr.Ipv6AddrRoundTrip` | src/base/net.cpp:217-487 | the bracketed text, which always fits the 127 characters copied, is parsed as those fields and that port |
| `NetAddr.RoundTrip` | src/base/net.cpp:217-518 | printing and then parsing gives the same family, address bytes and printed port, for every address |
| `NetAddr.RoundTripIsExactIff` | src/base/net.cpp:217-518 | the parsed address equals the printed one in every field if and only if it carries nothing that is not printed |
| `NetAddrForms.TextOfNumber` | src/base/net.cpp:274-281 | numbers are printed most significant digit first, in lower case and without leading zeros, as sections 4.1 and 4.3 of RFC 5952 ask for |
| `NetAddrForms.ValueOfDigit` | src/base/net.cpp:464-465 | hexadecimal digits are read in either case |
| `NetAddrForms.AcceptedIffDotted` | src/base/net.cpp:490-521 | a text without a bracket is accepted if and only if it is four decimal numbers below 256 with dots between them, and maybe a colon and a number below 65536, and nothing else; it is parsed as those |
| `NetAddrForms.AcceptedIffBracketed` | src/base/net.cpp:442-489 | a text with a bracket is accepted if and only if at most 127 characters up to the closing one are an IPv6 address, and a colon right behind it is followed by a number below 65536 |
| `AndroidSync.UnchangedIffSame` | src/android/android_main.cpp:206-213 | against a truthful index, an asset is skipped if and only if the stored file is already the same |
| `AndroidSync.InvStep` | src/android/android_main.cpp:183-247 | every file operation, partial write, failed removal and interruption keeps the invariant of disk and program place |
| `AndroidSync.RunsKeepInv` | src/android/android_main.cpp:183-247 | it holds at every moment of any number of interrupted runs with one set of assets |
| `AndroidSync.CompletedRunSyncs` | src/android/android_main.cpp:164-248 | after any number of interrupted runs, a completed one leaves the data folder exactly equal to the assets, but for stale files that could not be removed |
| `AndroidSync.SharedFilesNeverDamaged` | src/android/android_main.cpp:201-219 | files that the old and the new version share are intact at every moment, as long as the saved index exists |
| `AndroidUpdates.RepairsIffCompatible` | src/android/android_main.cpp:183-247 | for three versions: however the second was interrupted and however often the third is, a completed run of the third leaves exactly its assets, if and only if a condition on the versions alone holds |
| `AndroidUpdates.CompatibleRepairs` | src/android/android_main.cpp:183-247 | compatible versions: every interrupted update is repaired |
| `AndroidUpdates.IncompatibleFails` | src/android/android_main.cpp:183-247 | other versions: an interruption after which the completed run leaves a wrong, missing or superfluous file |
| `AndroidUpdates.SameOrOldVersionNext` | src/android/android_main.cpp:183-247 | the interrupted version always repairs itself; the old one repairs it if and only if both have the same files |
| `AndroidUpdates.RunTo` | src/android/android_main.cpp:183-247 | from any point a run without failures reaches any later one, and does not touch the files that the index takes for unchanged or does not know |
| `AndroidUpdates.CutUpdateThenOldVersion` | src/android/android_main.cpp:183-186 | two versions of one file for which an interrupted update followed by the old version ends in unnoticed damage |
| `AndroidChains.ChainRepairsIffCompatible` | src/android/android_main.cpp:183-247 | for any number of versions in a row, each run and interrupted any number of times or not at all: a completed run of the next one leaves exactly its assets in every case, if and only if a condition on the versions alone holds |
| `AndroidChains.CompatibleChainRepairs` | src/android/android_main.cpp:183-247 | compatible versions: every chain of interruptions is repaired |
| `AndroidChains.IncompatibleChainFails` | src/android/android_main.cpp:183-247 | other versions: a chain of interruptions after which the completed run leaves a wrong, missing or superfluous file |
| `AndroidChains.PassStep` | src/android/android_main.cpp:183-247 | a version that has what earlier ones had right, and no file that the next one lacks: every file operation, partial write and interruption keeps it true that what the next one would not touch is as that one wants it |
| `AndroidChains.ChainKeeps` | src/android/android_main.cpp:183-247 | for compatible versions that is so wherever in the chain one version is followed by another |
| `AndroidChains.StopsAt` | src/android/android_main.cpp:183-247 | for any two versions with different indices, a chain that ends with the files of the later one and with the saved index of the earlier one or none |
| `AndroidChains.OneVersionChain` | src/android/android_main.cpp:183-247 | with one interrupted version the condition is that of `AndroidUpdates.RepairsIffCompatible` |
| `AndroidStorage.Storage.InitAndroid` | src/android/android_main.cpp:164-248 | whichever file operations fail, the disk goes through exactly the states of a run of the state machine, up to its end or an interruption; whenever it completes, a truthfully described folder has all the assets as they should be, and as files too many at most those whose removal failed, no more than operations failed; without failures it completes and brings the folder up to date |
| `AndroidStorage.Storage.Synchronize` | src/android/android_main.cpp:188-247 | the same for the part after the check of the saved index |
| `AndroidStorage.Storage.UnpackChanged` | src/android/android_main.cpp:202-219 | the first loop follows the state machine operation by operation, to its end or to an interruption |
| `AndroidStorage.Storage.UnpackAsset` | src/android/android_main.cpp:52-70 | opening and writing a file are steps of the state machine, a write cut short being an interruption after that many bytes |
| `AndroidStorage.Storage.RemoveStale` | src/android/android_main.cpp:221-238 | the second loop does too: it tries to remove each stale file once, whatever happened to the others, and what it leaves are exactly the files whose removal failed |
| `AndroidStorage.Storage.UnpackIndex` | src/android/android_main.cpp:188-197 | the new index is torn between opening and writing it, and an error in between is an interruption |
| `AndroidStorage.Storage.ReplaceSave` | src/android/android_main.cpp:240-245 | the saved index is removed and the new one renamed, with an interruption if either fails |
| `HttpDownload.HttpRequest.constructor` | src/engine/http.cpp:19-23 | a new request has received nothing and remembers its destination as it was |
| `HttpDownload.HttpRequest.BeforeInit` | src/engine/http.cpp:244-271 | succeeds exactly if folder and file can be made, opens an empty temporary file and touches no other |
| `HttpDownload.HttpRequest.OnData` | src/engine/http.cpp:273-311 | takes data exactly if it is within the limit; then it is received, hashed, in memory and, as far as the system writes it, in the temporary file |
| `HttpDownload.HttpRequest.Remember` | src/engine/http.cpp:291-304 | the doubled buffer keeps what it held and ends with the new data |
| `HttpDownload.HttpRequest.OnCompletionInternal` | src/engine/http.cpp:313-396 | commits if and only if a file was asked for without validation, the transfer was done, the hash of the data taken in is the expected one, the answer was not "not modified", and the file could be closed and moved; the final state in every case, which is done only if the file is where it belongs; and the temporary file is gone unless it waits for validation or cannot be removed |
| `HttpDownload.HttpRequest.CheckHash` | src/engine/http.cpp:315-330 | fails exactly if a hash was expected and what was hashed has another one |
| `HttpDownload.HttpRequest.CompleteFile` | src/engine/http.cpp:332-382 | in every case either the destination is what it was, or it is exactly what was received; the state is done if and only if closing, and moving or reading the old file where needed, have worked |
| `HttpDownload.HttpRequest.OnValidation` | src/engine/http.cpp:120-143 | the destination is afterwards as it was, or replaced by exactly what a request that stays done has received, if and only if the request is done or the answers move nothing; on a request that is done, success with a working rename replaces it unless the answer was "not modified", and a rename that fails makes it an error |
| `HttpDownload.HttpRequest.Destroy` | src/engine/http.cpp:25-34 | a request that is given up without validation leaves the destination alone |
| `HttpDownload.Download` | src/engine/http.cpp:120-396 | over a whole life of a request, the destination is replaced if and only if everything in it went well, by exactly the data received, which has the expected SHA-256 digest; otherwise it is unchanged; a request for a new file is done in the end if and only if the file was replaced, and one to memory that is done holds exactly the data; the temporary file does not stay if it can be removed |
| `HttpDownload.Perform` | src/engine/http.cpp:244-396 | up to completion: a request without validation has committed if and only if a new file arrived and could be moved, one with validation is done and modified if and only if it arrived; it is done if and only if everything that had to go well did |
| `HttpDownload.Transferring` | src/engine/http.cpp:273-311 | the transfer is complete if and only if the data is within the limit and was written in full; then all of it has been received and hashed |
| `HttpDownload.ValidationOfUnfinished` | src/engine/http.cpp:120-143 | for every state but done, all settings with validation, all data within the limit and any part of it, a request that has received the data and whose destination `OnValidation(true)` replaces by that part |
| `FutureLogger.RunKeepsInv` | src/base/log.cpp:513-547 | every interleaving of calls keeps each message in one place, in order, and the lock with its holder |
| `FutureLogger.DeliveredExactlyOnce` | src/base/log.cpp:513-547 | when `Set` and a call of `Log` have returned, the target has got that message exactly once |
| `FutureLogger.NeverDeliveredTwice` | src/base/log.cpp:513-547 | at no moment has a message been delivered twice, or before its call acted on it |
| `FutureLogger.BufferedInOrder` | src/base/log.cpp:523-527 | buffered messages arrive in buffering order, and all of them by the time `Set` returns |
| `FutureLogger.NothingBufferedAfterSet` | src/base/log.cpp:531-547 | once the target is in place nothing is buffered, though the first check is made without the lock |
| `FutureLogger.NoDeadlock` | src/base/log.cpp:513-547 | until all calls have returned some call can go on |
| `Easter.Dividends` | src/base/time.cpp:78-92 | every dividend is non-negative, so the truncating operators are the mathematical ones |
| `Easter.CorrectionsAgree` | src/base/time.cpp:82-85 | the century terms are the solar and lunar corrections of the calendar |
| `Easter.DistanceFromEpact` | src/base/time.cpp:86 | `h` is the distance from 21 March of the full moon by the uncorrected epact |
| `Easter.UncorrectedIsSunday` | src/base/time.cpp:87-89 | `h + L` always leads to a Sunday within a week after that full moon |
| `Easter.DivisionIsCaseSplit` | src/base/time.cpp:90 | the one division replaces the case split of the two exceptional epacts |
| `Easter.FullMoonOfFormula` | src/base/time.cpp:86-90 | with that correction the full moon is the one of the calendar |
| `Easter.FormulaIsEaster` | src/base/time.cpp:78-92 | month and day are those of the first Sunday strictly after the paschal full moon, from 22 March to 25 April, for every year |
| `Easter.EasterIsUnique` | src/base/time.cpp:78-92 | there is one such day in a year |
| `Easter.IsEasterDay` | src/base/time.cpp:94-102 | true from Good Friday to Easter Monday and on no other day |
| `TidyLines.JoinOfLines` | scripts/tidy_alphabetical.py:50 | joining the lines of a text gives the text |
| `TidyLines.LinesOfJoin` | scripts/tidy_alphabetical.py:50 | splitting joined lines gives the lines |
| `TidyLines.LinesEndAtBreaks` | scripts/tidy_alphabetical.py:50 | a line ends with the first of the characters at which `splitlines` breaks, given by their code points; only the last one may have none |
| `TidyLines.SortedIsSorted` | scripts/tidy_alphabetical.py:50 | the sort gives the lines in order, each as often as before |
| `TidyLines.SortedIsUnique` | scripts/tidy_alphabetical.py:50 | no other arrangement of the lines is in order |
| `TidyLines.LexLeMeans` | scripts/tidy_alphabetical.py:50 | the order is ascending: a beginning comes before the whole, and the smaller first different character before the larger |
| `TidyLines.SortedTextSorts` | scripts/tidy_alphabetical.py:38-50 | sorting whole lines keeps the length of the text and makes its lines the sorted arrangement |
| `TidyLines.SortingKeepsWords` | scripts/tidy_alphabetical.py:50 | sorting makes no word appear that was not there, not even across two lines |
| `TidyLines.PrefixIsSorted` | scripts/tidy_alphabetical.py:88-89 | a sorted text cut at the end of a line is still sorted |
| `TidyAlphabetical.SortLines` | scripts/tidy_alphabetical.py:38-50 | raises exactly for text that does not end with a line feed; the check of the length never does |
| `TidyAlphabetical.CheckFile` | scripts/tidy_alphabetical.py:53-100 | the report of the loop, for every text; none of the RuntimeErrors is raised |
| `TidyAlphabetical.CheckRegion` | scripts/tidy_alphabetical.py:80-98 | the report on one region |
| `TidyAlphabetical.FindDifference` | scripts/tidy_alphabetical.py:92-97 | the search always finds the first difference |
| `TidyAlphabetical.LineAtCounts` | scripts/tidy_alphabetical.py:59-60 | the number of a line is one more than the line feeds before it |
| `TidyAlphabetical.ApplyFixes` | scripts/tidy_alphabetical.py:117-125 | replaces the stretches of the fixes and keeps what lies between them |
| `TidyAlphabetical.RegionsArePlaced` | scripts/tidy_alphabetical.py:65-81 | if all problems have fixes, the regions lie apart from each other, hold whole lines, and contain no marker |
| `TidyReports.ReportExplained` | scripts/tidy_alphabetical.py:65-98 | every error is what it says and on the line it names: that of the first character out of place, of the markers without a line end between them, of a start marker with no end marker left or within the last region, or of an end marker with no start marker before it |
| `TidyFixes.AppliedIsFixed` | scripts/tidy_alphabetical.py:117-125 | applying the reported fixes sorts every region, reported or not |
| `TidyFixes.MarkersKept` | scripts/tidy_alphabetical.py:117-125 | no marker appears, disappears or moves |
| `TidyFixes.RegionPasses` | scripts/tidy_alphabetical.py:80-98 | a region that was sorted gives nothing to report, even if its last line now ends it earlier |
| `TidyFixes.SilentIffTidy` | scripts/tidy_alphabetical.py:53-100 | nothing is reported if and only if the markers are those of regions apart from each other, each of whole lines in order, with no marker left over |
| `TidyFixes.FixingSucceeds` | scripts/tidy_alphabetical.py:53-125 | if unsorted regions are all that is reported, applying the fixes changes nothing else, sorts each region's own lines, and a second check reports nothing |

## Left out

- AioRing.AsyncIo.WriteUnlocked: needs a total below 2^31, which `RegrowthFitsIff` shows to be exact; failing allocations are not modelled.
- AioRing.NextBufferSize: needs a size of at most 2^31, past which the loop does not end.
- AioRing.AsyncIo.Regrow: like `WriteUnlocked`.
- AioProtocol: the error flag of `aio_error` and errors of `io_write`; the file is what was handed to `io_write`. Lock, semaphore and thread are their abstract contracts, without memory ordering.
- AioProtocol.Enabled: assumes that a caller waits at most once and makes no call during or after `aio_free`. Nothing in src/base/aio.h limits the number of `aio_wait` calls; `CLoggerAsync::GlobalFinish` followed by its destructor (src/base/log.cpp:268-284) would wait twice, the second time on a null handle.
- AsyncLog.Log: the line feed of non-Windows systems; which messages a filter lets through is a parameter. That its writes are those of one client under one lock is the hypothesis of `RecordStaysWhole`.
- Sha256Constants.ConstantsAreCubeRoots: that the numbers listed are the first 64 primes is left to be read.
- Utf8Copy.StrCopy: a buffer size of 0 or less, which the source does not handle either.
- Utf8Copy.Utf8Truncate: a negative number of code points, for which the source calls `str_copy` with a size of 0.
- FilenameOrder.CompFilenames: bytes above 127, whose order depends on the signedness of `char` and the locale.
- Base64.StrBase64Decode: what a failed call has already written to the buffer.
- Sha256.Sha256State.Finish: messages of 2^61 bytes or more, for which the standard defines no hash; their length is taken modulo 2^64 as in the source.
- EditDistance.Utf32DistBuffer: overflow of `int` lengths.
- WindowsArgs.ArgsToWide: the conversion of arguments to UTF-16; a quote right after a closing quote, whose reading is not documented, is `Unspecified`.
- ConsoleArgs.GetParsedArgument: that the buffer is static, so the next call overwrites the last result; `std::isspace` in locales other than "C".
- NetAddr.ParseInt: numbers are unbounded. The source agrees up to 2^31 - 1, see `AccumulationFitsIff`; past that its `int` overflows, which is undefined.
- NetAddr.ParseUint8: inherits the unbounded numbers.
- NetAddr.ParseUint16: inherits the unbounded numbers.
- NetAddr.FromStr: what a failed call leaves in the address, the Windows variant of the parser, and extensions of `inet_pton` beyond the grammar. Text after an IPv6 port is ignored, as in the source.
- NetAddr.Put: the repair of truncated UTF-8, which never applies to this ASCII text.
- AndroidSync: hashes stand for what they were computed from; names longer than the path buffer; lines that do not parse; a saved index that exists but cannot be read; the log.
- AndroidStorage.Storage.OpenFile: stands for making the folder as well.
- HttpDownload: the transfer itself, headers, progress callbacks, waiting threads, and skipping by an existing hash.
- FutureLogger: the order of a buffered message and one logged directly while `Set` flushes, which the source does not promise; filters and `GlobalFinish`.
- Easter.IsEasterDay: local time; days are whole, without changes of the clock.
- TidyAlphabetical: reading and writing files, walking the tree, and files in which some problem has no fix. Carriage returns do not occur, because text mode has replaced them.
- Graphics, sound, input, sockets, name resolution, vectors and colours, registry entries, bindings and generated tables: interfaces and plumbing, or arithmetic on floats.
- `get_str_double_kz` and `str_format_time_kz`: strip zeros of the integer part too, so their texts do not determine the number.
