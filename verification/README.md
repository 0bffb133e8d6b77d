# A verified model of an event-driven HTTP server

A Dafny 4.11 model of the parts of the server in which much state, arithmetic or order of events meets, with
proofs of what they promise. `dafny verify dfyconfig.toml` checks all of it.

Most parts have two layers. A `...Spec` module describes a component as a value and its operations as functions
on it, and proves what every operation keeps and what every run does. A class beside it has the fields, loops and
links of the source, and every method is proved to do to its fields what the function does to the value. The
`...Promises`, `...Progress` and `HttpParts` modules say what operations, runs and parsed texts come to without naming
those functions.

| part | specification | as in the source |
|---|---|---|
| printing a double (Grisu3) | `Grisu.dfy`, `FewestDigits.dfy`, `DigitsOnce.dfy`, `DiyFp.dfy`, `Layout.dfy` | `DigitGen.dfy`, `NumberText.dfy`, `Layout.dfy`, `Dtoa.dfy` |
| table of cached powers | `PowerAccuracy.dfy` | `CachedPowers.dfy` |
| byte queue | content as a string | `Buffer.dfy` |
| output of a connection, load ledger | `ConnectionSpec.dfy` | `Connection.dfy` |
| asynchronous logging | `LoggingSpec.dfy`, `LoggingProgress.dfy` | `AsyncLogging.dfy` |
| timer queue | `TimerSpec.dfy`, `TimerPromises.dfy` | `TimerQueue.dfy` |
| file cache | `LruSpec.dfy`, `LruPromises.dfy` | `FileLru.dfy` |
| pairing of rename events | `RenameSpec.dfy`, `RenameStale.dfy` | `Rename.dfy` |
| request parser | `HttpSpec.dfy`, `HttpParts.dfy`, `HttpCalls.dfy`, `HttpPrint.dfy`, `HttpPipeline.dfy`, `HttpGrammar.dfy`, `HttpErrors.dfy` | `HttpContext.dfy` |

The kernel, the clock, the file system and the other threads are parameters: what a call into the kernel answers
is an argument of the operation, and theorems hold for all of them. Threads are interleaved at the steps that the
mutex makes atomic.

Where the code does less than its comments or tests suggest, the model follows the code, and a lemma says exactly
when it does what it should:

- The lower boundary of the smallest normal double is not a midpoint (`LowerBoundaryIsMidpoint`).
- A parser call that resumes an unfinished token and holds body bytes miscounts them, always (`CallIsFeed`,
  `BodyByteLost`); the comment at `src/http/HTTP-Context.cc:304` says that the loop is left there, but it goes on.
- A call that begins a request and brings more than the request puts the surplus back, into the memory the body is
  still to be read from: pipelined requests get wrong bodies, unless the surplus is no longer than the head or there is
  no body (`FreshCall`, `FreshCallIsRight`, `PipelinedPair`, `PipelinedInOneRead`).
- A request that came with an earlier one is parsed only with the next read (`Serve`, `ServedInOrder`).
- A request without a length is complete if and only if the call that ends its head has no more bytes behind it than
  it began with bytes of an earlier call, and those are dropped (`NoLengthAndMoreBytes`, `ByteBehindHeadLost`).
- A negative `Content-Length` is not rejected, though the code tests for it (`NegativeLengthWaits`).
- `getParamByKey` looks a parameter up among the headers (`ParamFoundIffHeader`).
- A log message as long as a big buffer is dropped (`AppendKeepsMessage`), and `stop` can leave messages unwritten
  (`StopLeaves`).
- `sendFile` on a connection that `send` has just closed spoils the load ledger (`SendFileLedgerExact`,
  `FileAfterFailedHead`).
- `send` does not ask whether the connection was closed, and an interrupted write closes it while the socket lives, so
  that a later message can overtake a lost one (`SendOrder`, `InterruptedThenSent`).
- When a queued file is cut short, `sendfile` moves nothing and the write callback never returns
  (`src/tcp/TCP-Connection.cc:113-131`; `LoopEndsIff`, `ZeroBytesGoOn`).
- Overwriting a cached file with a longer one can exceed the capacity (`CapacityKept`), `moveFile` leaves node
  keys behind (`MoveFile`), so that the map can come to lead to a deleted node (`EvictMoved`), and `delDir` also drops
  entries whose names only begin with that of the directory (`DelDirDropsDirectory`).
- A directory inside one that was moved keeps the path from before in the watch map, so that later moves of it are
  not reported (`ReportedIffWatchIsOld`, `InsideMovedIsLost`, `ExactlyTheseReported`).

The rename theorems are about moves that have cookies of their own, and, for directories, old paths and watches
of their own, of directories that are not parents of one another's entries (`Apart` and `DoNotMeet` say all of it).

## Model

| member | source | states |
|---|---|---|
| `DiyFp.Multiply` | src/log/Grisu3.h:93-109 | the product of the significands is rounded half up at bit 64, exactly; no partial sum wraps; exponents add |
| `DiyFp.RoundedProduct` | src/log/Grisu3.h:96-107 | schoolbook multiplication on 32-bit halves equals the rounded full product and stays below 2^64 |
| `DiyFp.ProductLeavesRoom` | src/log/Grisu3.h:93-109 | every product leaves room for the unit that digit generation adds to the upper boundary |
| `DiyFp.Minus` | src/log/Grisu3.h:85-91 | the difference, under the condition the source asserts |
| `DiyFp.Normalize` | src/log/Grisu3.h:111-122 | both shifting loops end in the same number with bit 63 set |
| `DiyFp.NormalizedUnique` | src/log/Grisu3.h:111-122 | there is only one such representation |
| `DiyFp.NormalizedValue` | src/log/Grisu3.h:111-122 | normalisation keeps the real value |
| `DiyFp.Double2DiyFp` | src/log/Grisu3.h:124-135 | only the ranges: a significand of 53 bits and an exponent of a double; what the bits mean is stated by `NextDouble` |
| `DiyFp.NextDouble` | src/log/Grisu3.h:124-135 | the next bit pattern is the next number, across binades and from subnormals to normals, so that bit patterns are decoded as section 3.4 of IEEE 754-2008 orders them |
| `DiyFp.NormalizedBoundaries` | src/log/Grisu3.h:207-226 | number and both boundaries come to one exponent, keep their values, and stay apart by given margins |
| `DiyFp.UpperBoundaryIsMidpoint` | src/log/Grisu3.h:211-212 | the upper boundary is half way to the next double, for every positive finite double |
| `DiyFp.LowerBoundaryIsMidpoint` | src/log/Grisu3.h:217-224 | the lower boundary is half way to the double below if and only if the double is not the smallest normal one |
| `DiyFp.SmallestNormalBoundary` | src/log/Grisu3.h:217-224 | for that one the boundary lies above the midpoint: the interval is narrower than need be, never wider |
| `CachedPowers.CachedPowHitsTarget` | src/log/Grisu3.h:77-83 | for every exponent of a normalised double the index is in the table, and the product exponent lands in [-60, -32]; the index is taken of the exact product |
| `CachedPowers.RoundingIsHarmless` | src/log/Grisu3.h:78 | and the rounding of that product to a double never changes the index |
| `PowerAccuracy.EntryIsAccurate` | src/log/Grisu3.h:46-75 | each of the 87 entries is its power of ten, correctly rounded to 64 bits |
| `CachedPowers.EntriesFit` | src/log/Grisu3.h:46-75 | each of the 87 entries is normalised, and its binary exponent fits its decimal one |
| `DigitGen.LargestPow10` | src/log/Grisu3.h:141-146 | the guessed digit count is right: the power returned is 10^(count-1), and the argument is below 10^count |
| `DigitGen.RoundWeed` | src/log/Grisu3.h:148-162 | only the last digit changes, by as many steps as the remainder grew; it never passes 0; no step of it comes nearer to the near end of the uncertainty; the answer is positive if and only if that holds for the far end too and the candidate is inside the safe interval |
| `DigitGen.WeededIsNearest` | src/log/Grisu3.h:148-162 | a settled candidate is no farther from the number than its neighbours, wherever in its uncertainty the number lies |
| `DigitGen.Generate` | src/log/Grisu3.h:164-203 | the digits lie in [too_low, too_high]; no multiple of ten times their weight does; success if and only if the last digit is settled and they lie inside by two and four units; at most 20 digits, and nothing wraps |
| `DigitGen.GenerateInteger` | src/log/Grisu3.h:176-188 | the first loop: either it ends with the digits before the point, or these are all and the fraction is left |
| `DigitGen.GenerateFraction` | src/log/Grisu3.h:189-202 | the same for the second loop, which ends because the scaled interval grows tenfold below a bound |
| `DigitGen.TakeIntegerDigit` | src/log/Grisu3.h:176-186 | one round of the first loop keeps the exact remainder |
| `DigitGen.TakeFractionDigit` | src/log/Grisu3.h:189-200 | one round of the second loop keeps the exact remainder, scaled, without wrap-around |
| `Grisu.ScaledProduct` | src/log/Grisu3.h:230-232 | a product with a cached power is within one unit of the exact position of the number |
| `Grisu.GeneratedIsShortest` | src/log/Grisu3.h:228-236 | no decimal with a greater exponent lies between the rounding boundaries |
| `Grisu.GeneratedReadsBack` | src/log/Grisu3.h:228-236 | on success the decimal lies strictly between the boundaries |
| `Grisu.GeneratedIsNearest` | src/log/Grisu3.h:228-236 | on success no decimal with as many digits between the boundaries is nearer to the number |
| `Grisu.Grisu3` | src/log/Grisu3.h:205-237 | for every positive finite double: shortest always, and inside the interval and nearest on success; success is decided by weeding alone |
| `DigitsOnce.ConvertsOnce` | src/log/Grisu3.h:205-237 | what is said of the digits tells them: digits, exponent and success of a double are determined |
| `DigitsOnce.GeneratedOnce` | src/log/Grisu3.h:164-203 | the same of digit generation: a greater exponent would have stopped it before, and weeding stops at one place |
| `FewestDigits.ShortestHasFewestDigits` | src/log/Grisu3.h:205-237 | no positive decimal between the boundaries has fewer digits than an answer that reads back and has the greatest exponent, whether or not they lie around a power of ten |
| `NumberText.DecimalDigitsValue` | src/log/Grisu3.h:239-258 | the digits written for a number have its value, without a leading zero |
| `NumberText.DecimalDigitsUnique` | src/log/Grisu3.h:239-258 | there is no other digit string without leading zeros |
| `NumberText.EmitDigits` | src/log/Grisu3.h:241-248 | the loop leaves the decimal digits in reverse |
| `NumberText.U32ToString` | src/log/Grisu3.h:239-258 | writes the decimal digits and a terminator, and returns their number |
| `NumberText.ReverseRange` | src/log/Grisu3.h:250-255 | the swapping loop reverses the range and leaves the rest |
| `NumberText.I32ToString` | src/log/Grisu3.h:260-271 | writes sign and digits of every 32-bit integer, the smallest included |
| `Layout.TextReadsBack` | src/log/Grisu3.h:315-342 | for all digits and every exponent the laid-out text reads back as exactly digits times ten to the exponent |
| `Layout.ExponentIff` | src/log/Grisu3.h:312-342 | an exponent is written if and only if the text without one would be longer; beside a point if and only if no digit would be left of it, and then one digit stands there |
| `Layout.TextLength` | src/log/Grisu3.h:315-342 | the text is at most 13 characters longer than the digits |
| `Layout.LayOut` | src/log/Grisu3.h:315-342 | the in-place stage produces that text, in bounds and terminated |
| `Layout.LayOutPoint` | src/log/Grisu3.h:316-325 | the branch that moves digits to make room for a point |
| `Layout.LeadingZeros` | src/log/Grisu3.h:326-332 | the branch that moves the digit behind leading zeros |
| `Dtoa.DtoaGrisu3` | src/log/Grisu3.h:273-344 | sign, zero and infinity; the fallback is taken for what is not a number and, of the positive finite numbers, if and only if digit generation gives up; otherwise the text denotes a correct answer for the double |
| `Buffers.Buffer.MakeSpace` | src/tcp/Buffer.h:113-122 | growing or compacting never changes the content, and leaves the space asked for |
| `Buffers.Buffer.MoveToFront` | src/tcp/Buffer.h:118 | copying down over an overlapping range keeps the bytes |
| `Buffers.Buffer.Append` | src/tcp/Buffer.h:82-86 | the content grows by exactly the bytes given |
| `Buffers.Buffer.Retrieve` | src/tcp/Buffer.h:53-59 | drops the first bytes, or all |
| `Buffers.Buffer.RetrieveAll` | src/tcp/Buffer.h:49-52 | empties the content |
| `Buffers.Buffer.EnsureWritableBytes` | src/tcp/Buffer.h:75-79 | content unchanged, space there |
| `Buffers.Buffer.AppendFrom` | src/tcp/Buffer.h:82-86 | appending bytes that lie in the buffer itself, behind the place they go to, in one in-place copy: what was in front and what lies farther behind stays |
| `ConnectionSpec.SendKeeps` | src/tcp/TCP-Connection.cc:160-183 | under any answer of the kernel, bytes sent followed by the buffer are all messages in order; what waits is waited for |
| `ConnectionSpec.SendFileKeeps` | src/tcp/TCP-Connection.cc:184-210 | the same for file bytes and the queue |
| `ConnectionSpec.WriteBufferKeeps` | src/tcp/TCP-Connection.cc:49-64 | a partial write moves the front of the buffer to the socket |
| `ConnectionSpec.SendFrontKeeps` | src/tcp/TCP-Connection.cc:115-132 | a partial sendfile moves the front of the first file, and takes the same off the ledger |
| `ConnectionSpec.WriteFilesKeeps` | src/tcp/TCP-Connection.cc:115-132 | the loop over queued files keeps the accounts, however far the answers take it |
| `ConnectionSpec.LoopEndsIff` | src/tcp/TCP-Connection.cc:113-131 | the loop ends if and only if a call takes nothing for now or fails, or the calls have moved every byte owed |
| `ConnectionSpec.ProgressEnds` | src/tcp/TCP-Connection.cc:113-131 | if every successful call moves a byte, as many calls as bytes are owed are enough |
| `ConnectionSpec.ZeroBytesGoOn` | src/tcp/TCP-Connection.cc:113-131 | calls that move nothing, as on a file cut short, change nothing and never end the loop |
| `ConnectionSpec.WriteFilesGivesOut` | src/tcp/TCP-Connection.cc:113-131 | the socket gets the first bytes owed, as many as the kernel moves, over however many files; the connection is closed if and only if an error comes before they are all gone |
| `ConnectionSpec.WriteCallbackGivesOut` | src/tcp/TCP-Connection.cc:95-137 | so it does in the write callback, unless the write failed |
| `ConnectionSpec.SendTakesIn` | src/tcp/TCP-Connection.cc:160-183 | whatever the state and the answer, the message is recorded whole; unless the connection is closed, what the socket does not take is added to what waits; files are not touched |
| `ConnectionSpec.SendFileTakesIn` | src/tcp/TCP-Connection.cc:184-210 | the same of a file |
| `ConnectionSpec.WriteCallbackTakesIn` | src/tcp/TCP-Connection.cc:95-137 | the write callback records nothing, and gives the socket just what one write takes of the buffer |
| `ConnectionSpec.RunTakesIn` | src/tcp/TCP-Connection.cc:49-232 | in every run what a connection has recorded is what the operations on it were given, in order |
| `ConnectionSpec.NothingIsLost` | src/tcp/TCP-Connection.cc:49-232 | in every state of every run, what the socket of an open connection accepted and what waits are all the messages and all the files that the operations were given |
| `ConnectionSpec.WriteCallbackKeeps` | src/tcp/TCP-Connection.cc:95-137 | afterwards an open connection is interested in writing exactly if it was and something waits |
| `ConnectionSpec.SendFileLedgerExact` | src/tcp/TCP-Connection.cc:184-210 | the ledger entry of sendFile is right if and only if the connection is open, or the file empty, or nothing waits and the direct call sends all of it or fails |
| `ConnectionSpec.FileAfterFailedHead` | src/http/HTTP-Server.cc:133-134 | an instance of the failure: the head of a response cannot be sent, its file is sent all the same |
| `ConnectionSpec.SendOrder` | src/tcp/TCP-Connection.cc:160-183 | sending keeps the order, whatever the message, if and only if the connection is open, owes no message, lets it wait, or the socket takes nothing |
| `ConnectionSpec.SendFileOrder` | src/tcp/TCP-Connection.cc:184-210 | the same of files |
| `ConnectionSpec.InterruptedThenSent` | src/tcp/TCP-Connection.cc:168-174 | an instance of the failure: a write interrupted by a signal closes the connection, and the next message overtakes the lost one |
| `ConnectionSpec.LedgerExact` | src/tcp/TCP-Connection.cc:102-135 | every operation changes the ledger by what it changes of the bytes owed, and by what sendFile enters for a closed connection |
| `ConnectionSpec.RunIsOk` | src/tcp/TCP-Connection.cc:49-232 | in every run over any number of connections of a loop, for all answers of the kernel: the accounts of every open connection balance, and the ledger is the sum of the bytes owed by open connections and of those leaked |
| `ConnectionSpec.LedgerIffNoLeak` | src/tcp/TCP-Connection.cc:49-232 | in every run the ledger is the sum of the bytes owed if and only if no sendFile has queued bytes on a closed connection |
| `ConnectionSpec.SocketsInOrder` | src/tcp/TCP-Connection.cc:49-232 | in every run a socket on which no message or file has overtaken a lost one got the first bytes of the messages and of the files that the operations were given, in order and once |
| `Connections.TCPConnection.Send` | src/tcp/TCP-Connection.cc:160-183 | does what `ConnectionSpec.Send` says for every answer of the kernel, ledger included; `SendTakesIn` and `NothingIsLost` say that no message is dropped by it |
| `Connections.TCPConnection.SendFile` | src/tcp/TCP-Connection.cc:184-210 | refines the specification; the ledger rises by what was queued |
| `Connections.TCPConnection.WriteNonBlocking` | src/tcp/TCP-Connection.cc:49-64 | refines the specification, with the three return values |
| `Connections.TCPConnection.WriteCallback` | src/tcp/TCP-Connection.cc:95-137 | refines the specification for any answers with which it returns |
| `Connections.TCPConnection.WriteFiles` | src/tcp/TCP-Connection.cc:115-132 | its loop, with the ledger, for any answers with which it ends |
| `Connections.TCPConnection.HandleClose` | src/tcp/TCP-Connection.cc:213-232 | closes once, and takes the bytes still owed off the ledger |
| `LoggingSpec.AppendKeepsMessage` | src/log/AsyncLogging.cc:80-97 | the log grows by the message if and only if it is shorter than a big buffer |
| `LoggingSpec.LockKeepsLog` | src/log/AsyncLogging.cc:22-37 | taking the mutex and swapping keeps the log |
| `LoggingSpec.WakeKeepsLog` | src/log/AsyncLogging.cc:25-32 | so does waking up, after whatever was appended during the wait |
| `LoggingSpec.WriteOneKeepsLog` | src/log/AsyncLogging.cc:40-42 | writing a buffer moves it to the file |
| `LoggingSpec.RecoverKeepsLog` | src/log/AsyncLogging.cc:44-59 | taking buffers back loses nothing |
| `LoggingSpec.RotationIsSafe` | src/log/AsyncLogging.cc:19-61 | in every state of every interleaving no dereference and neither assertion can fail, and the next buffer is null exactly when full buffers wait |
| `LoggingSpec.LogIsConserved` | src/log/AsyncLogging.cc:19-62 | file, buffers in hand, full buffers and current buffer are all messages in order, in every state of every run |
| `LoggingSpec.UnwrittenAtExit` | src/log/AsyncLogging.cc:19-63 | when the thread has ended exactly the full buffers and the current one are unwritten |
| `LoggingSpec.StopLeaves` | src/log/AsyncLogging.cc:19-63 | what stop leaves unwritten, by where it finds the consumer |
| `LoggingProgress.RunsRecord` | src/log/AsyncLogging.cc:19-97 | in every run the record of messages is that of the calls, the flag is down if and only if stop was called, and the thread has ended only if it was |
| `LoggingProgress.HandsOverIffFull` | src/log/AsyncLogging.cc:80-97 | a buffer is handed over if and only if the message does not fit in it |
| `LoggingProgress.WritesAll` | src/log/AsyncLogging.cc:40-61 | from the buffers in hand, so many steps of the consumer as are left and one more lead to the head of its loop, with all of them written, whatever happens meanwhile |
| `LoggingProgress.TakesSoon` | src/log/AsyncLogging.cc:19-37 | while it is not stopped, of any three steps outside the writing one takes buffers in hand |
| `LoggingProgress.AppendedIsWritten` | src/log/AsyncLogging.cc:19-97 | when buffers were taken in hand twice and then written, the file has everything appended before |
| `LoggingProgress.AwaitedIsWritten` | src/log/AsyncLogging.cc:25-61 | once is enough if the consumer waited: the file then has just what had been appended |
| `AsyncLog.FixedBuffer.Append` | src/log/LogStream.h:28-33 | a message that leaves no byte free is dropped, any other appended |
| `AsyncLog.FixedBuffer.Reset` | src/log/LogStream.h:42 | empties the buffer |
| `AsyncLog.AsyncLogging.Append` | src/log/AsyncLogging.cc:80-97 | refines the step of the specification |
| `AsyncLog.AsyncLogging.ConsumerStep` | src/log/AsyncLogging.cc:19-63 | each step of the consumer does what the specification says; that its thread goes on until it is stopped, and writes, are `RunsRecord`, `TakesSoon` and `WritesAll` |
| `AsyncLog.AsyncLogging.RecoverBuffers` | src/log/AsyncLogging.cc:44-59 | both assertions of the source hold |
| `TimerSpec.LessIsStrictWeakOrder` | src/timer/TimerQueue.h:21-31 | the comparison is a strict weak order, and ties are pointers to one address |
| `TimerSpec.NewTimer` | src/timer/Timer.cc:3-7 | the interval in whole microseconds, towards zero, of the product as doubles round it: that of the exact product, or one more where the rounding reaches it |
| `TimerSpec.RoundedUp` | src/timer/Timer.cc:7 | an instance: the double 0.29 comes to 290000 microseconds |
| `TimerSpec.FireSplits` | src/timer/TimerQueue.cc:27-35 | what is taken out is exactly what expires up to now, what stays exactly the rest |
| `TimerSpec.EraseFinds` | src/timer/TimerQueue.cc:142-145 | erasing by expiration and pointer removes just that entry |
| `TimerSpec.InsertSorted` | src/timer/TimerQueue.cc:20-23 | inserting keeps the set ordered and adds just that entry |
| `TimerSpec.AddKeeps` | src/timer/TimerQueue.cc:126-137 | adding keeps both sets in agreement and the alarm in time |
| `TimerSpec.CancelKeeps` | src/timer/TimerQueue.cc:139-152 | so does cancelling, inside callbacks or outside |
| `TimerSpec.FireKeeps` | src/timer/TimerQueue.cc:93-106 | so does taking out the expired timers |
| `TimerSpec.ReinsertKeeps` | src/timer/TimerQueue.cc:42-53 | exactly the interval timers of the batch that were not cancelled go back, an interval from now |
| `TimerSpec.FinishKeeps` | src/timer/TimerQueue.cc:110-112 | so does the end of the handler |
| `TimerSpec.RunsAreOk` | src/timer/TimerQueue.cc:13-153 | in every run the sets agree under the current expirations, and runs of one timer are an interval apart |
| `TimerSpec.NoLateWakeup` | src/timer/TimerQueue.cc:53-80 | outside the handler the alarm goes off by the earliest expiration, or 100 microseconds after it was set |
| `TimerSpec.WholeBatchRan` | src/timer/TimerQueue.cc:102-109 | every timer that had expired has been run, in order, when the handler ends |
| `TimerSpec.OneShotRunsOnce` | src/timer/Timer.cc:9-16 | in every run a timer without interval runs at most once |
| `TimerSpec.CancelCancels` | src/timer/TimerQueue.cc:139-152 | a cancelled timer is in neither set and will not go back |
| `TimerSpec.CancelledRunsAtMostOnce` | src/timer/TimerQueue.cc:107-112 | after it was cancelled a timer runs at most once more, and only in the batch being run |
| `TimerPromises.AddEffect` | src/timer/TimerQueue.cc:126-137 | just the timer is inserted, to expire when it should; the alarm is set again if and only if it is the first |
| `TimerPromises.CancelEffect` | src/timer/TimerQueue.cc:139-152 | just the timer leaves the sets, or is noted; every other timer, its expiration and its place in the batch, and the alarm, stay |
| `TimerPromises.FireEffect` | src/timer/TimerQueue.cc:27-40 | just the expired timers leave for the batch |
| `TimerPromises.FinishEffect` | src/timer/TimerQueue.cc:42-53 | just the uncancelled interval timers of the batch go back, an interval from its time; no other expiration changes |
| `TimerPromises.FinishArms` | src/timer/TimerQueue.cc:55-61 | the alarm is set for the first of them |
| `TimerPromises.NoTimerIsLost` | src/timer/TimerQueue.cc:93-153 | in every run a timer inserted and not cancelled is in the sets or in the batch, if it is an interval timer or has not run yet |
| `TimerPromises.ExpiresWhenDue` | src/timer/TimerQueue.cc:93-153 | in every run a timer expires when it was to, until it has run |
| `TimerPromises.NeverRunsEarly` | src/timer/TimerQueue.cc:93-112 | and does not run before |
| `TimerQueues.TimerQueue.InsertEntry` | src/timer/TimerQueue.cc:13-25 | inserts into both sets, and says whether the timer is now first |
| `TimerQueues.TimerQueue.GetExpired` | src/timer/TimerQueue.cc:27-40 | takes the expired entries out of both sets |
| `TimerQueues.TimerQueue.ResetTimerfd` | src/timer/TimerQueue.cc:64-80 | arms the alarm, at least 100 microseconds ahead |
| `TimerQueues.TimerQueue.AddTimer` | src/timer/TimerQueue.cc:126-137 | refines the specification and keeps the invariant |
| `TimerQueues.TimerQueue.CancelTimer` | src/timer/TimerQueue.cc:139-152 | what is cancelled is the timer alone: every other entry, and all else of the queue, is as before; the entry is always found |
| `TimerQueues.TimerQueue.BeginHandler` | src/timer/TimerQueue.cc:93-106 | refines the specification |
| `TimerQueues.TimerQueue.ReinsertExpired` | src/timer/TimerQueue.cc:42-53 | refines the specification |
| `TimerQueues.TimerQueue.EndHandler` | src/timer/TimerQueue.cc:110-112 | refines the specification and keeps the invariant |
| `LruSpec.EvictIsShortest` | src/base/FileUtil.cc:169-177 | eviction drops the shortest least recently used prefix that leaves room |
| `LruSpec.RunsAreInOrder` | src/base/FileUtil.cc:123-228 | in every run keys are unique and in the order of their last use, and hold what was last put |
| `LruSpec.CapacityKept` | src/base/FileUtil.cc:157-182 | an operation keeps the capacity bound if and only if it does not overwrite a key with so much longer a file |
| `LruSpec.DelDirDropsDirectory` | src/base/FileUtil.cc:214-228 | deleting a directory drops just what is in it if and only if every key that begins with its name is the name itself or has a slash behind it |
| `LruSpec.WithoutKeeps` | src/base/FileUtil.cc:203-228 | deleting keys leaves every other item |
| `LruSpec.WithoutMore` | src/base/FileUtil.cc:214-228 | deleting a prefix key by key comes to deleting all at once |
| `LruPromises.PutNew` | src/base/FileUtil.cc:133-184 | under a new key a file goes to the end, and the fewest least recently used items that make room go; none if all fit |
| `LruPromises.PutOld` | src/base/FileUtil.cc:157-166 | under a key that is there it takes the place of the old one, at the end, and every other item stays |
| `LruPromises.GetMoves` | src/base/FileUtil.cc:123-131 | a hit moves to the end, a miss changes nothing |
| `LruPromises.GoesIff` | src/base/FileUtil.cc:123-228 | an item goes if and only if it is deleted, by its name or with its directory, or is among the fewest that make room for a new key; what stays keeps its content, unless it is put |
| `LruPromises.ComesIff` | src/base/FileUtil.cc:123-228 | and nothing comes but what is put |
| `FileLru.FileLRU.PushBack` | src/base/FileUtil.cc:257-262 | the list stays linked both ways and acyclic, longer by the node at its end |
| `FileLru.FileLRU.Remove` | src/base/FileUtil.cc:269-275 | the list stays linked both ways, without the node |
| `FileLru.FileLRU.Get` | src/base/FileUtil.cc:123-131 | refines the sequence: a hit moves to the end, and returns its bytes |
| `FileLru.FileLRU.Put` | src/base/FileUtil.cc:133-184 | both exceptions; under a new key only the fewest items go that make room, and under one that is there no other goes |
| `FileLru.FileLRU.EvictUntilFits` | src/base/FileUtil.cc:169-177 | the loop ends before the sentinel, having dropped just the shortest prefix |
| `FileLru.FileLRU.GetFile` | src/base/FileUtil.cc:105-112 | a hit, or else a load |
| `FileLru.FileLRU.DelFile` | src/base/FileUtil.cc:203-213 | refines the sequence without the key |
| `FileLru.FileLRU.DelDir` | src/base/FileUtil.cc:214-228 | refines the sequence without the keys that have the prefix, in any order of the hash map |
| `FileLru.FileLRU.MoveFile` | src/base/FileUtil.cc:229-238 | the cache is consistent afterwards if and only if nothing was renamed, since the node keeps its key |
| `FileLru.FileLRU.EvictMoved` | src/base/FileUtil.cc:169-177 | what becomes of a renamed node: it is evicted under its old key, and the map leads to a deleted node |
| `FileLru.FileLRU.UniqueKeys` | src/base/FileUtil.cc:123-184 | keys are unique |
| `FileLru.FileLRU.Find` | src/base/FileUtil.cc:123-131 | the map finds the node that holds the key |
| `RenameSpec.FromEffect` | src/http/HTTP-Server.cc:247-271 | what IN_MOVED_FROM of a directory does, whatever came before |
| `RenameSpec.ToEffect` | src/http/HTTP-Server.cc:284-299 | what IN_MOVED_TO does, whatever came before |
| `RenameSpec.SelfEffect` | src/http/HTTP-Server.cc:309-330 | what IN_MOVE_SELF does, whatever came before |
| `RenameSpec.FileEffect` | src/http/HTTP-Server.cc:272-281 | what either event of a file does |
| `RenameSpec.EventKeeps` | src/http/HTTP-Server.cc:246-330 | after any event of any move the stores hold just what is known of the moves under way |
| `RenameSpec.RunsAreCanonical` | src/http/HTTP-Server.cc:219-337 | so in every prefix of every interleaving |
| `RenameSpec.EveryMoveReported` | src/http/HTTP-Server.cc:246-330 | once all events have come, in any order, every move was reported exactly once, every moved watch has its new path, and both stores are as they began |
| `RenameSpec.Confluent` | src/http/HTTP-Server.cc:246-330 | two interleavings of the same moves end in the same stores, and with the same calls |
| `RenameSpec.EntriesTellApart` | src/http/HTTP-Server.cc:223-224 | names without a slash: entries of directories are the same if and only if directory and name are |
| `RenameSpec.ReportedIffWatchIsOld` | src/http/HTTP-Server.cc:312-330 | one directory move is reported, in any order of its events, if and only if its watch says its old path |
| `RenameSpec.InsideMovedIsLost` | src/http/HTTP-Server.cc:223-330 | so a later move of a directory inside a moved one is never reported |
| `RenameStale.ExactlyTheseReported` | src/http/HTTP-Server.cc:246-330 | of any moves that do not meet, in any order of their events: exactly the files and the directories whose watches say their old paths are reported, each once, and exactly their watches change |
| `RenameStale.RunsAgree` | src/http/HTTP-Server.cc:219-337 | in every prefix of every interleaving the stores are, but for stray records, those of the reported moves alone |
| `RenameStale.CleanHandle` | src/http/HTTP-Server.cc:246-330 | an event that has to do with no stray does to the stores without strays what it does to the stores |
| `RenameStale.StaleEffect` | src/http/HTTP-Server.cc:246-330 | an event of a directory whose watch says another path adds a record or a path that is never paired |
| `RenameSpec.RunIsHandleAll` | src/http/HTTP-Server.cc:219-337 | runs of moves are runs over the raw events |
| `RenameSpec.HandleAllAppend` | src/http/HTTP-Server.cc:210-337 | how events are cut into reads does not matter |
| `Renames.RenameTracker.OnDirMovedFrom` | src/http/HTTP-Server.cc:247-271 | the loop over the records, refining the specification |
| `Renames.RenameTracker.OnDirMovedTo` | src/http/HTTP-Server.cc:284-299 | the loop that goes on past records without a watch |
| `Renames.RenameTracker.OnDirMovedSelf` | src/http/HTTP-Server.cc:309-330 | the loop over the records |
| `Renames.RenameTracker.OnEvent` | src/http/HTTP-Server.cc:221-334 | dispatch, with the lookup that makes empty entries |
| `Renames.RenameTracker.OnRead` | src/http/HTTP-Server.cc:210-337 | all events of a buffer |
| `HttpContexts.HTTPContext.ParseRequest` | src/http/HTTP-Context.cc:94-393 | the pointers and the snapshot compute what the automaton of accumulators does, for every state and every buffer, or are undefined where it says so; a call that begins a request parses the bytes in the buffer itself, which counts them as retrieved; what is read then is said of the text alone by `HttpParts.EveryPartParsed` |
| `HttpContexts.HTTPContext.OnLineByte` | src/http/HTTP-Context.cc:119-165 | request line up to the path |
| `HttpContexts.HTTPContext.OnParamByte` | src/http/HTTP-Context.cc:166-204 | query parameters, with the position of the equals sign |
| `HttpContexts.HTTPContext.OnProtocolByte` | src/http/HTTP-Context.cc:205-246 | protocol and version |
| `HttpContexts.HTTPContext.OnLineEndByte` | src/http/HTTP-Context.cc:247-265 | line ends |
| `HttpContexts.HTTPContext.OnHeaderByte` | src/http/HTTP-Context.cc:266-293 | header keys and values, with the position of the colon |
| `HttpContexts.HTTPContext.OnHeadEnd` | src/http/HTTP-Context.cc:294-315 | the end of the head, with its test for more bytes |
| `HttpContexts.HTTPContext.OnBody` | src/http/HTTP-Context.cc:321-341 | the body bytes of a call, in unsigned arithmetic; the surplus is put back, in place, before the body is read |
| `HttpContexts.HTTPContext.PutBack` | src/http/HTTP-Context.cc:333-340 | what is read of the body after the surplus was appended in front of it in the same memory |
| `HttpContexts.HTTPContext.Save` | src/http/HTTP-Context.cc:372-388 | the snapshot fits the automaton again |
| `HttpContexts.HTTPContext.Reset` | src/http/HTTP-Context.cc:20-26 | back to the initial state, though stale bytes stay in the snapshot |
| `HttpSpec.VerbIsNamed` | src/http/HTTP-Request.cc:35-68 | a verb is read from its name and from no other word |
| `HttpSpec.VersionIsNamed` | src/http/HTTP-Request.cc:11-33 | so is a version |
| `HttpParts.EveryPartParsed` | src/http/HTTP-Context.cc:94-342 | the parsed request has the verb and the version whose names were printed, the path, the last value of every parameter and header, and the body |
| `HttpParts.PostIsRead` | src/http/HTTP-Context.cc:94-342 | for example POST requests written out, for all paths and bodies |
| `HttpParts.UrlCharacters` | src/http/HTTP-Context.cc:32-69 | the bytes that a path or a parameter may have, by ranges |
| `HttpParts.HeaderCharacters` | src/http/HTTP-Context.cc:70-91 | those that the name of a header may have |
| `HttpParts.WordCharacters` | src/http/HTTP-Context.cc:119-293 | those of verbs and protocols, and those that separate parts, by their codes |
| `HttpParts.AtoiReads` | src/http/HTTP-Context.cc:297 | spaces, a sign and digits are read as their number, whatever follows, and as zero if there are none |
| `HttpCalls.CallIsFeed` | src/http/HTTP-Context.cc:96-115 | a call does what it should if and only if it began without bytes of an earlier call, or holds none behind the end of the head, and, if it begins a request, its surplus leaves the body as it is |
| `HttpCalls.HeadInAnyPieces` | src/http/HTTP-Context.cc:94-393 | every cutting of a head into calls ends as one call on the whole |
| `HttpCalls.SkewMiscounts` | src/http/HTTP-Context.cc:299-341 | otherwise the outcome always differs |
| `HttpCalls.BodyByteLost` | src/http/HTTP-Context.cc:299-327 | an instance: a body byte neither taken nor put back |
| `HttpCalls.BodyArrives` | src/http/HTTP-Context.cc:321-341 | in the body every cutting collects the bytes in order |
| `HttpCalls.BodyCompletes` | src/http/HTTP-Context.cc:321-341 | and completes with the call that brings the last one, surplus put back |
| `HttpCalls.CallEndsHead` | src/http/HTTP-Context.cc:294-341 | for every snapshot: the call that ends the head does what it would without the last bytes behind the head, as many as it began with, or is undefined where their number wraps around; in a call that begins a request the body is read behind the surplus |
| `HttpCalls.MessageWaits` | src/http/HTTP-Context.cc:294-342 | a request with a length waits as long as fewer bytes have been counted |
| `HttpCalls.MessageCompletes` | src/http/HTTP-Context.cc:294-342 | and completes with the first so many bytes counted behind the head as its body, for every cutting of the rest; all bytes are counted if none were held |
| `HttpCalls.MessageInOneCall` | src/http/HTTP-Context.cc:294-342 | or at once, with what is read of the body after the surplus was put back |
| `HttpCalls.FreshCall` | src/http/HTTP-Context.cc:321-341 | a call that begins a request and brings more: head, meaning and surplus are right, and the body is if and only if no byte of the surplus that comes to lie on it differs |
| `HttpCalls.FreshCallIsRight` | src/http/HTTP-Context.cc:321-341 | for all bodies and surpluses of given lengths if and only if there is no body or the surplus is no longer than the head |
| `HttpCalls.PipelinedPair` | src/http/HTTP-Context.cc:333-340 | an instance: of two requests with heads of one length and bodies of one length in one read, the first gets the body of the second |
| `HttpCalls.MessageInPieces` | src/http/HTTP-Context.cc:94-342 | head and body in any pieces come to a complete request with just that body if and only if the call that ends the head began without bytes of an earlier call or has none behind the head |
| `HttpCalls.SplitHead` | src/http/HTTP-Context.cc:94-320 | what is left of a head that was cut is a head for the parser as the first part leaves it |
| `HttpCalls.AtEndKeeps` | src/http/HTTP-Context.cc:94-320 | the head changes neither body nor length |
| `HttpCalls.NoLengthAndMoreBytes` | src/http/HTTP-Context.cc:308-314 | for every snapshot: without a length a request completes if and only if the call that ends its head has at most as many bytes behind it as it began with, which are dropped; otherwise it waits for ever |
| `HttpCalls.NoLengthFromNothingHeld` | src/http/HTTP-Context.cc:308-314 | so from nothing held it completes if and only if no byte follows in that call |
| `HttpCalls.ByteBehindHeadLost` | src/http/HTTP-Context.cc:308-314 | an instance: after CR LF CR the call with LF and one more byte completes and drops it |
| `HttpCalls.NegativeLengthWaits` | src/http/HTTP-Context.cc:297-298 | for every snapshot: a negative length is never rejected, but taken for a huge one; the call is undefined if it has bytes behind the head, and fewer than it began with |
| `HttpPrint.ParsingUndoesPrinting` | src/http/HTTP-Context.cc:94-342 | parsing the text of a request as in sections 3 and 5 of RFC 9112 gives every component back, COMPLETE |
| `HttpPrint.PiecesUndoPrinting` | src/http/HTTP-Context.cc:94-342 | parsing it in any pieces does so if and only if the call that ends the head began without bytes of an earlier call, or has no body bytes |
| `HttpPrint.PiecesOfHead` | src/http/HTTP-Context.cc:94-320 | so parsing it in any pieces always does, when it has no body |
| `HttpPipeline.ServedInOrder` | src/http/HTTP-Server.cc:94-112 | many requests in any pieces, one call for every read, with reset after each request: if every call does what it should, the requests taken and those still in the buffer are all of them, in order and once |
| `HttpPipeline.PipelinedInOneRead` | src/http/HTTP-Server.cc:94-112 | many requests in one read: one is taken for every call, and all are right if and only if each body survives the texts behind it |
| `HttpPipeline.PrintedThenMore` | src/http/HTTP-Context.cc:94-342 | the text of a request with more behind it: the request, with what is read of its body, and the rest |
| `HttpGrammar.AcceptsTheGrammar` | src/http/HTTP-Context.cc:94-320 | conversely, the bytes the parser takes as a head are exactly the heads of the grammar, and the request it leaves is their meaning |
| `HttpGrammar.Advance` | src/http/HTTP-Context.cc:116-293 | every byte taken extends the text of some message, of which the parser has the parts |
| `HttpErrors.ErrorIffNoHead` | src/http/HTTP-Context.cc:116-320 | bytes lead to an error state if and only if they neither contain nor begin a head |
| `HttpErrors.ErrorNamesPart` | src/http/HTTP-Context.cc:116-320 | the error names the part of the head it is in |
| `HttpErrors.CanComplete` | src/http/HTTP-Context.cc:116-320 | from every state in a head there is a way to its end, of a given length |
| `HttpErrors.NoShorterCompletion` | src/http/HTTP-Context.cc:116-320 | and none shorter |
| `HttpPrint.LineReached` | src/http/HTTP-Context.cc:119-255 | the request line |
| `HttpPrint.FieldsReached` | src/http/HTTP-Context.cc:247-293 | the header fields |
| `HttpPrint.LastValueCounts` | src/http/HTTP-Request.cc:84 | of repeated keys the last value put into the map counts; line 73 does the same for parameters |
| `HttpPrint.ParamFoundIffHeader` | src/http/HTTP-Request.cc:74-78 | getParamByKey finds a parameter if and only if a header of that name that counts has its value |
| `HttpPrint.AtoiReadsDigits` | src/http/HTTP-Context.cc:297 | a length written in decimal digits is read as that length |

## Left out

- CachedPowers.CachedPowHitsTarget: the product in `cached_pow` is over the reals; that a double would round it to
  within 0.00005 is taken from its magnitude below 400, and then `CachedPowers.RoundingIsHarmless` says that it does
  not matter.
- Dtoa.DtoaGrisu3: not-a-number and the fallback to `sprintf` are one outcome, `Fallback`; the sign is returned
  beside the digits, which start at the beginning of the buffer.
- HttpContexts.HTTPContext.ParseRequest: a range outside the bytes there are, which is undefined in C++, is an outcome of
  its own, and so is not executed further; a colon left from an earlier token may lie before the bytes, where the
  source forms a pointer it does not read through.
- HttpCalls.CallIsFeed: bytes of an earlier call and of this one are together fewer than 2^64; the buffer is one of which
  nothing has been read, as every call leaves it (`HttpContexts.HTTPContext.ParseRequest` is stated for all buffers).
- HttpSpec: overflow in `atoi` (its value is unbounded before it is stored in 64 bits), and locales other than "C".
- HttpPrint.PiecesUndoPrinting: requests shorter than 2^64 bytes.
- HttpPipeline.ServedInOrder: the connection is not closed meanwhile, as a request can ask for; the other direction, that
  a call that fails its condition spoils the sequence, is proved for requests in one read only.
- AsyncLog.AsyncLogging.Append: a buffer and the pointer that owns it are one value, so `FixedBuffer` is modelled and
  proved beside it; flushing, rolling and the clock are not modelled.
- LoggingSpec.LogIsConserved: every message is shorter than a big buffer, which `LoggingSpec.AppendKeepsMessage` shows
  to be needed.
- TimerSpec.NewTimer: the rounded product is an argument, with what rounding to nearest promises of it (`IsRounded`), and
  fits 64 bits.
- TimerQueues.TimerQueue.RunCallback: what a callback does is a sequence of further calls to `AddTimer` and
  `CancelTimer`; a timer object is an identity, and its expiration is kept in a map of the queue.
- TimerSpec.RunsAreOk: runs of a timer are timed by the clock reading at the start of their batch; timers that are alive
  have different addresses; calls from other threads appear when the loop runs their functors.
- ConnectionSpec.RunIsOk: a write callback that never returns is no step of a run; the order between messages and
  files is not specified by the source.
- FileLru.FileLRU.Put: the file's content is an argument, so checking its size and reading it are one step; keys are given
  as stored, without the path arithmetic; locking is not modelled (a hit relinks nodes under a shared lock).
- FileLru.FileLRU.MoveFile: of later operations on a renamed node only its eviction is followed (`EvictMoved`); `moveDir`
  is left out.
- RenameSpec.EveryMoveReported: parents of the moves under way do not move themselves; joining paths is concatenation with
  a slash; creation, deletion, modification and ignored watches are left out.
- Buffers.Buffer.Append: `prepend`, `swap` and `shrink` are left out, since nothing here uses them.
- Sockets, epoll, timerfd, inotify and the thread pool: the system calls themselves.
- HTTP responses, routing, logging format, LogFile rolling and process plumbing.
