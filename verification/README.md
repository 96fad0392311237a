# Models of threadit, log4cpp and UnitTest++

This project models the stateful core of three C++ code bases and proves what they are for.

* **The threadit active object** (`ThreadIt.dfy`, `WorkerSteps.dfy`, `ProtectedQueue.dfy`, `MtQueue.dfy`,
  `EventDispatch.dfy`, `Timer.dfy`). Clients queue work packs with `startWork`; one worker thread waits, pops, dispatches
  and hands results on. The concurrent parts are step relations, with one step for every action that a critical section, a mutex
  or the kernel makes atomic: pushing an item and releasing the semaphore are two steps, so are taking a signal and
  popping, and a `startWork` call is an identity step and a push. The theorems hold for every run, that is every
  interleaving of any number of threads. Beside each protocol stands the class as code, tied to the protocol's steps.
* **Two formatters of log4cpp** (`Snprintf.dfy`, `Conversions.dfy`, `PatternLayout.dfy`, `PatternText.dfy`): the portable
  `snprintf` with its bounded stores, and the conversion-pattern compiler, each against a direct meaning of its input,
  and that meaning against what each written conversion or directive shows of its argument or event.
* **Sequential state machines of log4cpp** (`Properties.dfy`, `PropertyLines.dfy`, `RollingFile.dfy`, `Category.dfy`,
  `Syslog.dfy`, `Buffering.dfy`): loops and classes over maps, streams and buffers, each against a functional specification.
* **Two pieces of UnitTest++** (`XmlEscape.dfy`, `MemoryStream.dfy`): escaping in place, and a growing C-string buffer.

`Text.dfy` holds the string searches and numerals they share. `dafny verify dfyconfig.toml` checks everything.

## Where the code differs from its documentation

Each of these follows the code. A lemma or method names an input or a run that shows the difference, and an exact
condition says when the documented behaviour holds.

* `portable_vsnprintf` computes its paddings in `size_t`, so a text wider than its field, such as `%d` of 5 with width 0
  (`Snprintf.PlainConversionFails`), gives a gap of nearly 2^64. The code keeps the promise of `snprintf` exactly when
  every converted text fits its field (`BoundedWriter.DeliversIffAllFit`, and for the returned int
  `ReturnedInt.PromiseIffAllFit`). With the padding the comments describe it would always keep it
  (`BoundedWriter.DocumentedDelivers`). The stores are in bounds and the result is independent of the buffer in either
  case.
* `%+hd` of 65535 writes two signs (`ConversionText.TwoSignsExample`): the sign flag goes by the value before `h` makes it
  shorter. The exact condition is `ConversionText.TwoSignsExactly`. A comment excepts an explicit precision of 0 from the
  leading zero of the octal alternate form; the code does not, and writes nothing exactly under the condition of
  `ConversionText.NothingWrittenExactly`.
* `%c{2}` of `.a` gives `a` (`PatternMeaning.LeadingDotExample`): `begin - 2` wraps to the end of a name with a leading
  dot, exactly when `n` exceeds the number of dots (`PatternMeaning.CategoryExact`).
* An event method registered by another thread while the worker rebuilds its handle list can be forgotten
  (`EventProtocol.ForgottenEvent`), and two of them can run the wrong handler (`EventProtocol.WrongHandler`). Every slot
  runs its own handler exactly when the scan has not read a filled slot after an empty one
  (`EventProtocol.RightHandlerExactly`), and every event is waited for exactly when no registration landed behind the
  scan (`EventProtocol.NothingForgottenExactly`).
* A successful wait on `CMtQueue` does not promise an item (`MtProtocol.EventWithoutItem`). Between operations the event
  of an empty list is set exactly when a thread that was about to set it at the last reset has done so since
  (`MtProtocol.EventWithoutItemExactly`); if takes and clears never meet such a thread, a set event does promise an item
  (`MtProtocol.CalmEventPromisesItem`).
* The elapsed time is one short exactly when the tick counter wrapped (`TimeArithmetic.ElapsedExact`,
  `TimeArithmetic.WrapExample`), and `CTimeIt::getRemaining` is the time left exactly while the difference fits a signed
  32-bit number (`TimeArithmetic.RemainingExact`, `TimeArithmetic.RemainingExample`).
* Without a periodic method the worker's `Elapsed` is stale, and the next time-out wraps to weeks exactly when the stale
  value exceeds the period (`Timer.StaleTimeOut`, `Timer.StaleExample`).
* A callback can carry the data item of an earlier one (`ThreadIt.StaleItem`). It carries its own pack's item exactly
  when the pack asked for that or the callback before carried the same item (`ThreadIt.OwnItemExactly`).
* A saved property whose key starts with `log4j.` comes back under a shorter key (`Properties.PrefixLost`). A saved file
  is read back, in every environment, exactly under the conditions of `Properties.SaveThenLoadExact`.
* In non-lossy mode a full `BufferingAppender` queue is passed on but not cleared (`BufferingAppender.OutgrownExample`).
  The bound holds exactly in lossy mode or while no more than `max_size` events have come since the last trigger
  (`BufferingAppender.BufferingAppender.BoundExactly`).
* `setMaxBackupIndex(0)` turns rolling over into reopening: a log file of twice its maximal size is
  `RollingFileAppender.GrownExample`. A message keeps the file below the limit exactly when the file is truncated or the
  message does not reach it (`RollingFileAppender.BelowLimitExactly`); without truncation the file never gets shorter
  (`RollingFileAppender.GrowsWithoutLimit`). Another positive count leaves the backups right exactly under the conditions
  of `RollingFileAppender.NewCountExactly` and `RollingFileAppender.NewWidthExactly`.
* `MemoryOutStream(0)` writes the first NUL into a buffer of 0 bytes (`MemoryStream.SizeZero`); that write is in bounds
  exactly for sizes from 1 (`MemoryStream.FirstWriteInBounds`).

## Model

| member | source | states |
|---|---|---|
| ThreadIt.Dispatch | threadit/src/threadit.cpp:254-459 | in every run, each `startWork` call is exactly one of in flight, queued or popped once; packs are popped in push order, and each client's packs in the order it issued them; the popped packs are, in order, those whose instruction was dispatched, followed by the one just popped, if any |
| ThreadIt.WorkAccounting | threadit/src/threadit.cpp:398-410 | for the work queue of the running active object, which is never popped without a signal: queued packs and stops equal signals, pending threads and empty pops; empty pops never exceed stops; while they equal them, a woken worker finds a pack |
| ThreadIt.Conservation | threadit/src/threadit.cpp:405-642 | every pack ever allocated is in exactly one place: client, between the halves of `startWork`, work queue, worker, done queue, caller's queue, kept, freed or undeliverable |
| ThreadIt.NoAccessAfterHandOff | threadit/src/threadit.cpp:560-642 | the worker reads or writes a pack's fields only while it alone owns the pack: before the step, or after it for the result of a method called in it; so never after queueing or freeing it |
| ThreadIt.CallbacksMatch | threadit/src/threadit.cpp:560-642 | a callback fires directly after its result was handed on, exactly for the packs that asked for one, with that pack's instruction and, when asked for, its data item; otherwise with the item of the callback before |
| ThreadIt.OwnItemExactly | threadit/src/threadit.cpp:583-594 | a callback carries its own pack's item exactly when the pack asked for that or the callback before carried the same |
| ThreadIt.StaleItem | threadit/src/threadit.cpp:583-594 | a run in which a callback carries another pack's item |
| ThreadIt.DistinctIds | threadit/src/threadit.cpp:256-268 | two `startWork` calls fewer than 2^32 calls apart get different identities |
| ThreadIt.NeverStuck | threadit/src/threadit.cpp:348-546 | until it has exited, the worker always has an enabled step, and a call that has its identity can always push |
| ThreadIt.StepKeepsInv | threadit/src/threadit.cpp:254-642 | every client and worker step keeps the invariants: place in the queues, order, ownership, callbacks, dispatch history |
| ThreadIt.KeepsControl | threadit/src/threadit.cpp:254-642 | every step keeps where the worker and the clients stand in the two queues, and the queues' own invariants |
| ThreadIt.QueueSteps | threadit/src/threadit.cpp:254-642 | whatever a client or the worker does to either queue is an enabled step of that queue's protocol |
| ThreadIt.KeepsHistory | threadit/src/threadit.cpp:402-451 | every pop takes a signal first, and each popped pack is dispatched once, in order |
| ThreadIt.PushKeepsClientOrder | threadit/src/threadit.cpp:254-282 | a push that overtakes another client's call keeps every client's own order |
| ThreadIt.InvokeKeepsPlaces | threadit/src/threadit.cpp:416-451 | whatever a worker method frees, keeps or returns, its input, a new pack or one that client code had, no pack is lost or duplicated |
| ThreadIt.EventKeepsPlaces | threadit/src/threadit.cpp:461-497 | the event branch never sends the stale `pWorkDone` of an earlier response again |
| ThreadIt.PeriodKeepsPlaces | threadit/src/threadit.cpp:499-543 | the periodic branch neither loses nor duplicates a pack, also when the method returns false |
| ThreadIt.DeliverKeepsPlaces | threadit/src/threadit.cpp:585-628 | each way of handing a result on gives it exactly one new holder |
| WorkerSteps.MethodRuns | threadit/src/threadit.cpp:416-436 | for an instruction below `MAX_WORK_METHODS` with a method the method runs: what is to be sent is its input as it left it, the other pack it returned, or nothing; an input not returned is freed or kept; nothing else changes |
| WorkerSteps.InstructionRefused | threadit/src/threadit.cpp:437-451 | for any other instruction the input itself goes back with only its status changed |
| WorkerSteps.StatusExactly | threadit/src/threadit.cpp:416-451 | in every run the status says `NO_METHOD` exactly for an instruction below the maximum without a method, and `INVALID_INSTRUCTION` exactly for one that is not below it |
| WorkerSteps.HandlerRuns | threadit/src/threadit.cpp:461-497 | a handler runs exactly when its event ended the wait; its result, and nothing else, is sent under the number of the event |
| WorkerSteps.PeriodicRuns | threadit/src/threadit.cpp:499-543 | the periodic method runs exactly when it is due; its result is sent with instruction 0, under number 0 and as periodic, exactly when it reports success |
| WorkerSteps.CallbackSetUp | threadit/src/threadit.cpp:580-594 | the callback gets the result's instruction, the number it is sent under, whether it is periodic, and its item if asked for; without a result nothing is sent |
| WorkerSteps.DeliveredTo | threadit/src/threadit.cpp:596-623 | by its own three fields alone, a result goes to `m_DoneQ`, to its caller's queue, is marked `INVALID_DONE_QUEUE`, or is freed; exactly one of these |
| WorkerSteps.ClientsLeaveHeld | threadit/src/threadit.cpp:254-642 | whatever clients do meanwhile, the pack the worker holds and the worker's own state stay as they are |
| WorkerSteps.SentAsReturned | threadit/src/threadit.cpp:560-642 | so a pack that a method returned is handed on, over any client steps, with the fields it was returned with, and the callback was filled in from them |
| WorkerSteps.WorkAnswered | threadit/src/threadit.cpp:416-642 | from a popped instruction to the destination of what its method returned, announced under that instruction |
| WorkerSteps.EventAnswered | threadit/src/threadit.cpp:461-642 | the same for an event, announced under its number |
| WorkerSteps.PeriodAnswered | threadit/src/threadit.cpp:499-642 | the same for the periodic method, announced as periodic |
| WorkerSteps.EnabledExactly | threadit/src/threadit.cpp:376-544 | in every reachable state the worker's place alone decides which step it can take, up to what the wait and the methods deliver |
| WorkerSteps.IterationStarts | threadit/src/threadit.cpp:376-414 | a wait that took the semaphore leads to the front pack, one that ended with a registered event to its handler, any other to neither |
| WorkerSteps.WaitEnds | threadit/src/threadit.cpp:376-403 | the wait can end with each registered event, with a positive semaphore, or without either, and with nothing else |
| WorkerSteps.IterationEnds | threadit/src/threadit.cpp:544-642 | a response ends with the callback if one was asked for, and the loop ends exactly when the exit flag is set |
| WorkerSteps.StopsWithin | threadit/src/threadit.cpp:376-546 | from any state with the exit flag set, over any run, the worker takes at most nine more steps |
| WorkerSteps.NoCallAfterExit | threadit/src/threadit.cpp:405-544 | with the exit flag set no method is called but the worker method of a pack already popped, and nothing more is popped but what a taken signal stands for |
| WorkerSteps.Issued | threadit/src/threadit.cpp:254-279 | a call gives its pack the next identity modulo 2^32 and takes it out of the client's hands |
| WorkerSteps.ClientsCanGoOn | threadit/src/threadit.cpp:254-330 | in every reachable state clients inside an operation can go on, and those outside can queue any pack they have |
| WorkerSteps.SettingsGrow | threadit/src/threadit.cpp:658-721 | methods and events are only ever added, one at a time, and the exit flag stays set |
| WorkerSteps.ResultTaken | threadit/src/threadit.cpp:284-330 | client code takes results from the front of `m_DoneQ` |
| QueueProtocol.Accounting | threadit/src/ProtectedQueue.h:163-236 | first in first out, and the semaphore balance, in every reachable state of any number of threads |
| QueueProtocol.TakerFindsItem | threadit/src/ProtectedQueue.h:179-201 | once all stop signals are paid for by empty pops, and so in particular without any, a thread that took a signal finds an item |
| QueueProtocol.ReleaseRefused | threadit/src/ProtectedQueue.h:163-169 | a release fails only while the semaphore's maximum of outstanding signals is owed |
| QueueProtocol.StepKeepsInv | threadit/src/ProtectedQueue.h:163-236 | each atomic step keeps order and accounting |
| ProtectedQueue.ProtectedQueue.constructor | threadit/src/ProtectedQueue.h:140-144 | an empty queue with count 0, the protocol's initial state |
| ProtectedQueue.ProtectedQueue.InsertItem | threadit/src/ProtectedQueue.h:163-169 | the protocol's push and signal steps; the item goes to the back, the count goes up unless at its maximum |
| ProtectedQueue.ProtectedQueue.WaitItem | threadit/src/ProtectedQueue.h:179-201 | the take and pop steps; the front item, or nothing on a time-out or an empty list |
| ProtectedQueue.ProtectedQueue.GetItemNoDec | threadit/src/ProtectedQueue.h:221-236 | pops the front and leaves the semaphore alone |
| ProtectedQueue.ProtectedQueue.Clear | threadit/src/ProtectedQueue.h:251-271 | frees every queued item once, in order, and drains the semaphore; a new queue when no thread is inside it, and otherwise the accounting survives exactly when there was nothing to clear |
| MtProtocol.NoLostWakeUp | threadit/src/mtqueue.h:168-306 | in every run with inserters, takers and clearers, a non-empty list has its event set or an inserter about to set it |
| MtProtocol.InOrder | threadit/src/mtqueue.h:168-306 | items leave in push order; without `clear`, items taken followed by items queued are the items pushed |
| MtProtocol.EventWithoutItemExactly | threadit/src/mtqueue.h:168-306 | in every run, with the list empty between operations, the event is set exactly when a thread that was about to set it at the last reset has done so since |
| MtProtocol.CalmEventPromisesItem | threadit/src/mtqueue.h:168-306 | if every take and clear finds no inserter about to set the event, a set event means a non-empty list, except to the thread about to reset it |
| MtProtocol.EventWithoutItem | threadit/src/mtqueue.h:168-213 | a run that ends with the event set and the list empty |
| MtProtocol.StepKeepsInv | threadit/src/mtqueue.h:168-306 | each atomic step keeps the wake-up invariant and the order |
| MtQueue.MtQueue.InsertItem | threadit/src/mtqueue.h:168-174 | the item goes to the back and the event is set |
| MtQueue.MtQueue.TakeItem | threadit/src/mtqueue.h:221-283 | the front item or nothing; the event stays set exactly while items are left |
| MtQueue.MtQueue.WaitItem | threadit/src/mtqueue.h:184-213 | the same after a successful wait, which on an empty list finds nothing and resets the event; nothing on a time-out |
| MtQueue.MtQueue.Clear | threadit/src/mtqueue.h:298-306 | empties the list and resets the event |
| EventProtocol.RightHandlerExactly | threadit/src/threadit.cpp:376-497 | for any interleaving of registrations with loop iterations, and lists built before or after the latest registration: with distinct handles, every slot k runs the handler registered with the handle in slot k exactly when the last scan has not read a filled slot after an empty one |
| EventProtocol.RightHandler | threadit/src/threadit.cpp:376-497 | so with at most one registration during any scan it always does |
| EventProtocol.NothingForgottenExactly | threadit/src/threadit.cpp:376-395 | an up-to-date list lacks as many events as registrations landed behind the last scan, so none is forgotten exactly when none did |
| EventProtocol.NothingForgotten | threadit/src/threadit.cpp:376-395 | so with no registration during a scan nothing is forgotten |
| EventProtocol.WrongHandler | threadit/src/threadit.cpp:376-497 | from every table with room, two registrations during one scan can run the wrong handler |
| EventProtocol.ForgottenEvent | threadit/src/threadit.cpp:376-395 | from every table with room, one registration during a scan can be left out of the list |
| EventProtocol.StepKeepsInv | threadit/src/threadit.cpp:376-395 | every registration and every step of the scan keeps the match of slots and entries |
| EventDispatch.EventTable.SetEventMethod | threadit/src/threadit.cpp:704-721 | registers in the next free slot or refuses; registered entries never change and have no gaps |
| EventDispatch.EventTable.BuildList | threadit/src/threadit.cpp:376-395 | the list is the work queue's semaphore followed by the registered handles in order |
| EventDispatch.EventTable.HandlerFor | threadit/src/threadit.cpp:461-497 | the handler run for a reported slot, within the table's bounds |
| TimeArithmetic.ElapsedExact | threadit/src/TimeIt.cpp:138-161 | for less than 2^32 ms the computed time is exact, or one less when the counter wrapped |
| TimeArithmetic.ElapsedNeverLong | threadit/src/TimeIt.cpp:138-161 | the computed time never exceeds the true time |
| TimeArithmetic.WrapExample | threadit/src/TimeIt.cpp:138-161 | one millisecond across the wrap counts as none |
| TimeArithmetic.RemainingExample | threadit/src/TimeIt.cpp:166-194 | an unused allowance of 2^31 ms counts as used up |
| TimeArithmetic.RemainingExact | threadit/src/TimeIt.cpp:166-194 | `getRemaining` is the time left, or 0, exactly while the difference fits a signed 32-bit number |
| Timer.TimeIt.StartTiming | threadit/src/TimeIt.cpp:98-114 | remembers the tick and the allowance; an infinite allowance never expires |
| Timer.TimeIt.TimeElapsed | threadit/src/TimeIt.cpp:138-161 | the elapsed time in 32-bit ticks |
| Timer.TimeIt.IsExpired | threadit/src/TimeIt.cpp:74-91 | expired exactly when more than a non-zero allowance has elapsed |
| Timer.TimeIt.GetRemaining | threadit/src/TimeIt.cpp:166-194 | the 32-bit difference, 0 when its sign bit is set |
| Timer.Periodic.SetPeriod | threadit/src/threadit.cpp:754-767 | a new period restarts the timer, an unchanged one is left running |
| Timer.Periodic.EndOfIteration | threadit/src/threadit.cpp:499-543 | the periodic method runs exactly when more than the period has passed (one more when the counter wrapped); otherwise, with a method set, the next time-out is the rest of the period and does not underflow |
| Timer.Iterate | threadit/src/threadit.cpp:348-546 | over any iterations with the period left alone, consecutive periodic runs are more than the period apart |
| Timer.StaleTimeOut | threadit/src/threadit.cpp:538-543 | without a periodic method, the time-out underflows exactly when the stale elapsed time exceeds the period |
| Timer.StaleExample | threadit/src/threadit.cpp:499-543 | a run in which it does |
| BoundedWriter.DeliversIffAllFit | log4cpp/src/snprintf.c:554-1021 | for every buffer size, format and arguments with an expansion below 2^64 characters: str_l is the whole length and the longest fitting prefix of the expansion is left, exactly when every converted text fits its field; section 7.19.6.5 of ISO/IEC 9899:1999 |
| ReturnedInt.PromiseIffAllFit | log4cpp/src/snprintf.c:554-1023 | the same for the int that is returned, for every expansion below 2^31 characters |
| ReturnedInt.ReturnedValue | log4cpp/src/snprintf.c:554-1023 | the returned int is the literal characters plus the field widths, as 32 bits, whatever the buffer |
| BoundedWriter.DocumentedDelivers | log4cpp/src/snprintf.c:554-1023 | with the padding the comments describe, the promise is kept for every buffer size, format and arguments with an expansion below 2^64 characters |
| BoundedWriter.ChunksDeliver | log4cpp/src/snprintf.c:944-1012 | the bounded stores of any sequence of chunks agree with the unbounded output |
| BoundedWriter.ReturnedLength | log4cpp/src/snprintf.c:554-1021 | str_l at the end is the literal characters plus the field widths, modulo 2^64, whatever the buffer |
| BoundedWriter.Terminated | log4cpp/src/snprintf.c:1008-1012 | a non-empty buffer is terminated at the returned length or at its last byte |
| Snprintf.PlainConversionFails | log4cpp/src/snprintf.c:944-953 | `%d` of 5 returns 0 and leaves an empty string |
| FormatLength.CodedField | log4cpp/src/snprintf.c:912-1002 | as coded, a conversion advances the output by exactly its field width modulo 2^64 |
| FormatLength.DocumentedField | log4cpp/src/snprintf.c:912-1002 | as documented, it emits the longer of its field and its text |
| FormatLength.FittingChunks | log4cpp/src/snprintf.c:912-1002 | when everything fits, the code emits exactly what is documented |
| TemporaryBuffer.IntegerFitsTmp | log4cpp/src/snprintf.c:716-921 | no integer conversion overruns the 32 bytes of `tmp` |
| Snprintf.PortableVsnprintf | log4cpp/src/snprintf.c:538-1024 | the loop over the format: stores only inside the first str_m bytes, leaves the rest of the array alone, returns and leaves what the chunk semantics says, and, for expansions below 2^31 characters, keeps the promise of `snprintf` exactly when every converted text fits its field |
| ConversionText.IntegerText | log4cpp/src/snprintf.c:716-1002 | %d, %u, %o, %x and %X as documented: blanks, sign or prefix, zeros, the numeral of the value in its base, blanks; with the number of zeros for the precision, for flag 0 and for the octal alternate form |
| ConversionText.BaseDigitsDenote | log4cpp/src/snprintf.c:852-878 | the digits are the numeral of the value in the base, without a leading zero |
| ConversionText.StringText | log4cpp/src/snprintf.c:699-715 | %s writes the longest prefix of its argument within the precision, and nothing for NULL |
| ConversionText.CharText | log4cpp/src/snprintf.c:691-698 | %c writes its argument modulo 256, %% a percent sign |
| ConversionText.PointerText | log4cpp/src/snprintf.c:739-920 | %p writes the platform's text, with any zeros behind its sign and 0x |
| ConversionText.UnknownText | log4cpp/src/snprintf.c:922-940 | an unknown conversion writes its character alone |
| ConversionText.FieldLayout | log4cpp/src/snprintf.c:915-1002 | for every field: which zeros and blanks fill it, and that blanks stand behind it exactly when it is left justified |
| ConversionText.TwoSignsExactly | log4cpp/src/snprintf.c:812-866 | %hd writes two signs exactly when a sign flag meets a value that is not negative but whose low 16 bits are |
| ConversionText.TwoSignsExample | log4cpp/src/snprintf.c:812-866 | `%+hd` of 65535 starts with `+-` |
| ConversionText.NothingWrittenExactly | log4cpp/src/snprintf.c:839-914 | an integer conversion without a width writes nothing exactly for 0 with precision 0, without a sign flag and not in the octal alternate form |
| FormatText.FormatExpanded | log4cpp/src/snprintf.c:555-1004 | a format written from literal texts and specifications expands to those texts and the texts of the conversions, each with its arguments, in order |
| Snprintf.ParseFlags | log4cpp/src/snprintf.c:599-616 | the flags are the characters up to the first that is none |
| Snprintf.ParseUInt | log4cpp/src/snprintf.c:624-630 | the digit loop gives the numeral modulo 2^32 |
| FormatNotation.SpecBack | log4cpp/src/snprintf.c:599-676 | for all flags, widths and precisions, each a number, a star or absent, length modifiers and conversion characters: parsing the written specification gives all of them back, and goes on behind it with the arguments it did not use |
| FormatNotation.WidthBack | log4cpp/src/snprintf.c:620-631 | the width that was written or passed, and left justification for a negative one |
| FormatNotation.PrecisionBack | log4cpp/src/snprintf.c:633-655 | the precision that was written or passed, and none for a negative one |
| FormatNotation.LengthBack | log4cpp/src/snprintf.c:657-667 | the length modifier that was written; `ll` counts as `l` |
| Snprintf.ParseSpec | log4cpp/src/snprintf.c:599-676 | the parsing code gives the specification that `FormatNotation.SpecBack` is about |
| Snprintf.NextPiece | log4cpp/src/snprintf.c:557-598 | one literal run or conversion, with the position and arguments after it |
| Snprintf.Emit | log4cpp/src/snprintf.c:944-1002 | stores as much of a chunk as is left of the buffer and advances by its full length |
| Snprintf.EmitAll | log4cpp/src/snprintf.c:944-1002 | the same for a sequence of chunks |
| Snprintf.FastMemcpy | log4cpp/src/snprintf.c:363-375 | copies n characters and nothing else |
| Snprintf.Vform | log4cpp/src/StringUtil.cpp:37-69 | for results below 2^31, the growth loop ends and gives what is left in a buffer of 1024 bytes or of just the length needed: the whole expansion when everything fits |
| PatternLayout.PatternLayout.SetConversionPattern | log4cpp/src/PatternLayout.cpp:279-391 | a pattern is accepted exactly when it has a meaning, and then the compiled components mean the same as the pattern for every event: merged literals, `%%`, `%n`, truncation before padding, and widths held over to the next field |
| PatternLayout.PatternLayout.constructor | log4cpp/src/PatternLayout.cpp:259-264 | the default pattern is accepted |
| PatternLayout.PatternLayout.Format | log4cpp/src/PatternLayout.cpp:397-406 | the text of all components in order |
| PatternLayout.Append | log4cpp/src/PatternLayout.cpp:51-252 | what each kind of component appends |
| PatternLayout.AppendCategoryName | log4cpp/src/PatternLayout.cpp:78-96 | the search loop, in wrapping `size_t` arithmetic, gives the text of `%c{n}` |
| PatternLayout.ReadDirective | log4cpp/src/PatternLayout.cpp:294-326 | reads modifiers, conversion character and postfix exactly as the grammar of directives says, or fails |
| PatternLayout.IStream.ReadPostfix | log4cpp/src/PatternLayout.cpp:314-326 | the text in braces, up to the closing brace or the end |
| PatternLayout.LiteralStep | log4cpp/src/PatternLayout.cpp:382-384 | a literal character keeps the meaning of the whole |
| PatternLayout.EscapeStep | log4cpp/src/PatternLayout.cpp:328-340 | so do `%%` and `%n`, which leave the widths pending |
| PatternLayout.FieldStep | log4cpp/src/PatternLayout.cpp:370-381 | so does a field, which flushes the literal and uses up the widths |
| PatternMeaning.CategoryExact | log4cpp/src/PatternLayout.cpp:78-96 | `%c{n}` gives the last n dot-separated components exactly unless the name has a leading dot and fewer than n dots |
| PatternText.ModifyIs | log4cpp/src/PatternLayout.cpp:228-245 | a width cuts to the first max characters and pads with blanks to its absolute value, on the right exactly for a negative one |
| PatternText.FieldShows | log4cpp/src/PatternLayout.cpp:102-213 | which text of the event each conversion character shows |
| PatternText.CategoryShown | log4cpp/src/PatternLayout.cpp:64-95 | %c shows the whole name, or its last n components under the condition of CategoryExact |
| PatternText.PrecisionIs | log4cpp/src/PatternLayout.cpp:65-76 | how the number after %c{ is read: white space, sign, digits, saturation |
| PatternText.NoPrecision | log4cpp/src/PatternLayout.cpp:65-76 | a text without a number counts as 0 |
| PatternText.TimeFormats | log4cpp/src/PatternLayout.cpp:137-145 | the four named time formats, and any other text is a format itself |
| PatternText.TimeShown | log4cpp/src/PatternLayout.cpp:146-172 | %d shows strftime of the format with its first %l replaced by the milliseconds |
| PatternText.TimeWithoutMillis | log4cpp/src/PatternLayout.cpp:146-172 | and of the format as it is when it has no %l |
| PatternText.IntRead | log4cpp/src/PatternLayout.cpp:300-300 | which int the minimal width is, and when reading it fails |
| PatternText.SizeRead | log4cpp/src/PatternLayout.cpp:304-304 | which size the maximal width is, and when reading it fails |
| PatternText.DirectiveBack | log4cpp/src/PatternLayout.cpp:293-326 | reading a written directive gives back its widths, its character and its text in braces |
| PatternText.PatternShown | log4cpp/src/PatternLayout.cpp:292-388 | a pattern written from characters and directives means their texts, with each width in force from its directive to the next field |
| PatternText.UnknownRejected | log4cpp/src/PatternLayout.cpp:365-368 | a pattern with an unknown directive is rejected, wherever that stands |
| PatternText.UnterminatedRejected | log4cpp/src/PatternLayout.cpp:309-313 | so is one that ends behind a percent sign or its widths |
| PatternMeaning.LeadingDotExample | log4cpp/src/PatternLayout.cpp:78-96 | `%c{2}` of `.a` gives `a` |
| Substitution.SubstituteVariables | log4cpp/src/Properties.cpp:111-157 | the loop equals the recursive one-pass substitution |
| Substitution.Resolve | log4cpp/src/Properties.cpp:134-149 | `${` stands for itself; any other name for the environment's text, else the property's, else nothing |
| Substitution.EnvironmentFirst | log4cpp/src/Properties.cpp:138-140 | a variable of the environment hides the property of that name, whatever it is |
| Substitution.PropertyNext | log4cpp/src/Properties.cpp:141-148 | without one, the property of that name decides and no other; without either nothing is left |
| Substitution.EscapeFixed | log4cpp/src/Properties.cpp:135-136 | neither can redefine the escape |
| Substitution.ReferenceReplaced | log4cpp/src/Properties.cpp:121-154 | a reference is replaced by what it stands for, and that text is never expanded again |
| Substitution.UnchangedExactly | log4cpp/src/Properties.cpp:111-157 | the texts that every substitution leaves alone are exactly those without a complete reference |
| Substitution.EscapeUndone | log4cpp/src/Properties.cpp:134-136 | writing every `${` as `${${}` is undone by substitution, whatever the environment and the properties |
| Properties.InputStream.GetLine | log4cpp/src/Properties.cpp:31-43 | a whole line or its first 255 characters, with the stream's state afterwards |
| Properties.Properties.Load | log4cpp/src/Properties.cpp:21-87 | the reading loop handles exactly the reassembled lines, in order, and gives the map the specification says |
| Properties.Properties.AddLine | log4cpp/src/Properties.cpp:45-86 | comment, separator, trimming, substitution and prefix; an existing key keeps its value |
| Properties.Properties.Save | log4cpp/src/Properties.cpp:89-93 | one line for each entry |
| Properties.LinesLoaded | log4cpp/src/Properties.cpp:30-43 | a text without NULs is handled as exactly its newline-separated lines, whatever their lengths |
| Properties.ReassembledExact | log4cpp/src/Properties.cpp:31-43 | a line is put together again exactly when it has no NUL |
| Properties.EntryExact | log4cpp/src/Properties.cpp:51-85 | the line of an entry gives the entry back for every environment exactly when it has no `#`, no `=` in the key, no white space at its ends, no `log4j.` or `log4cpp.` prefix and no complete reference |
| Properties.SaveThenLoadExact | log4cpp/src/Properties.cpp:21-93 | `load` after `save` gives back the same map in every environment exactly when every entry is such a one and has no newline or NUL, in every enumeration order |
| Properties.SaveThenLoad | log4cpp/src/Properties.cpp:21-93 | the direction from the entries to the map, for each environment |
| Properties.PrefixLost | log4cpp/src/Properties.cpp:79-82 | `log4j.a=b` is read as `a` and `b` |
| Properties.TightEntry | log4cpp/src/Properties.cpp:51-85 | while all variables are empty, an entry is never longer than its line, and as long only when it is clean |
| Properties.TightLoad | log4cpp/src/Properties.cpp:21-87 | so a loaded map is never larger than its text, and as large only when all its entries can be saved |
| Properties.TrimKeeps | log4cpp/src/StringUtil.cpp:71-88 | trimming leaves a text alone exactly when it has no white space at its ends |
| PropertyLines.TrimIs | log4cpp/src/StringUtil.cpp:71-88 | trimming takes away exactly the blanks, tabs, carriage returns and newlines at both ends |
| PropertyLines.EntryTrimmed | log4cpp/src/Properties.cpp:60-65 | a key and a value with such characters around them make the same entry as without, for every environment |
| PropertyLines.CommentIgnored | log4cpp/src/Properties.cpp:51-68 | a comment behind a command does not matter, a line that starts with one or has no equals sign stands for nothing |
| PropertyLines.PrefixStripped | log4cpp/src/Properties.cpp:78-82 | the prefixes `log4j.` and `log4cpp.` are left out, and nothing else is |
| PropertyLines.LinesSplit | log4cpp/src/Properties.cpp:30-43 | the lines of a text are what its newlines separate |
| PropertyLines.FirstLineCounts | log4cpp/src/Properties.cpp:84-85 | of several lines for one key the first counts, with the value it has there, and a key without a line is not there |
| RollingFileAppender.RollingFileAppender.constructor | log4cpp/src/RollingFileAppender.cpp:32-42 | opens the log file in any directory; a backup count of 0 becomes 1; backups that are there count as completed segments |
| RollingFileAppender.RollingFileAppender.RollOver | log4cpp/src/RollingFileAppender.cpp:61-82 | the rename loop moves every file up one place, loses only the last, starts a new log file and touches nothing else; with count 0 it only reopens |
| RollingFileAppender.RollingFileAppender.Append | log4cpp/src/RollingFileAppender.cpp:84-94 | keeps the directory in step with everything logged and other files untouched; with backup count 0 the message stays, or is truncated away |
| RollingFileAppender.RollingFileAppender.SetMaxBackupIndex | log4cpp/src/RollingFileAppender.cpp:44-47 | a changed count keeps the backups right exactly when it is the same or no segment is beyond either count; with a changed width, in a directory of its own, exactly when moreover the names stay or there are no segments |
| RollingFileAppender.NewCountExactly | log4cpp/src/RollingFileAppender.cpp:44-47 | that condition for the count, on any directory |
| RollingFileAppender.NewWidthExactly | log4cpp/src/RollingFileAppender.cpp:44-47 | that condition for count and width |
| RollingFileAppender.GrowsWithoutLimit | log4cpp/src/RollingFileAppender.cpp:61-94 | with count 0 and no truncation, over any run, the log file holds all that was written |
| RollingFileAppender.BelowLimitExactly | log4cpp/src/RollingFileAppender.cpp:61-94 | with count 0, a message keeps the file below the limit exactly when it is truncated or the message does not reach it |
| RollingFileAppender.GrownExample | log4cpp/src/RollingFileAppender.cpp:44-94 | a log file of twice its maximal size |
| RollingFileAppender.SegmentCompleted | log4cpp/src/RollingFileAppender.cpp:61-82 | after rolling over, backup i is the i-th most recent completed segment up to the backup count, and there is no other |
| RollingFileAppender.HistoryKept | log4cpp/src/RollingFileAppender.cpp:61-94 | backups from oldest to newest followed by the log file are a suffix of everything written |
| RollingFileAppender.ReadBackKept | log4cpp/src/RollingFileAppender.cpp:61-94 | read in that order, the directory gives the newest segments |
| RollingFileAppender.ShiftOne | log4cpp/src/RollingFileAppender.cpp:72-77 | one rename moves the free place one down the chain |
| RolledLog.AllLoggedWritten | log4cpp/src/RollingFileAppender.cpp:84-94 | over any run nothing is lost or reordered, and segments end exactly when they reach the maximal size |
| RolledLog.SegmentsEndInTime | log4cpp/src/RollingFileAppender.cpp:84-94 | every segment ends with the message that made it reach the maximal size |
| BackupNames.NamesDiffer | log4cpp/src/RollingFileAppender.cpp:65-76 | whatever the width of the index, no two files of the chain share a name |
| BackupNames.NameIs | log4cpp/src/RollingFileAppender.cpp:63-80 | backup i is the log file's name, a dot and the numeral of i, filled up with zeros to the width |
| CategoryNames.EffectiveIsNearest | log4cpp/src/Category.cpp:88-97 | the effective priority is that of the nearest dotted prefix that has one |
| CategoryNames.ReachedExactly | log4cpp/src/Category.cpp:224-237 | an event reaches exactly the appenders up to and including the first category that is not additive |
| CategoryNames.TimesExactly | log4cpp/src/Category.cpp:224-237 | it reaches an appender once for each category up to and including that one that has it |
| CategoryNames.Unconfigured | log4cpp/src/HierarchyMaintainer.cpp:66-77 | without configuration every category logs from INFO on, and to no appender |
| CategoryNames.AncestorsExact | log4cpp/src/HierarchyMaintainer.cpp:69-76 | the categories found through parents are exactly the dotted prefixes of the name |
| CategoryRuns.RunMeans | log4cpp/src/HierarchyMaintainer.cpp:61-82 | over any run of `getInstance` and `setPriority` calls the map stays closed under parents and every name has the priority it was last set to, independently of what was created when |
| CategoryRuns.RunEffective | log4cpp/src/Category.cpp:77-97 | after any run the effective priority is the one its nearest dotted prefix with a priority was last set to |
| Category.HierarchyMaintainer.GetInstance | log4cpp/src/HierarchyMaintainer.cpp:61-82 | finds or creates; creates exactly the missing ancestors, keeps the existing objects, and changes the meaning of no name |
| Category.HierarchyMaintainer.Create | log4cpp/src/HierarchyMaintainer.cpp:77-79 | a new category under its parent, without a priority unless it is the root |
| Category.Category.SetPriority | log4cpp/src/Category.cpp:77-86 | sets the priority, except that the root refuses NOTSET and above |
| Category.Category.SetAdditivity | log4cpp/src/Category.cpp:239-241 | changes this category's additivity and nothing else in the tree |
| Category.Category.AddAppender | log4cpp/src/Category.cpp:115-124 | adds an appender once |
| Category.Category.GetChainedPriority | log4cpp/src/Category.cpp:88-97 | the loop ends, never reaches a null parent, and gives the effective priority |
| Category.Category.CallAppenders | log4cpp/src/Category.cpp:224-237 | each appender receives the event once for every reached category that has it |
| SyslogPackets.PacketsCarry | log4cpp/src/RemoteSyslogAppender.cpp:155-167 | for every message the datagrams are at most 900 bytes, all but the last are full, each starts with the preamble, and what they carry makes up the message |
| SyslogPackets.PriForm | log4cpp/src/RemoteSyslogAppender.cpp:145-146 | the PRI of section 4.1.1 of RFC 3164: one to three digits from which facility and severity can be read |
| SyslogPackets.SeverityBands | log4cpp/src/RemoteSyslogAppender.cpp:36-54 | which priorities give which severity, and that the mapping is monotone |
| SyslogPackets.Preamble | log4cpp/src/RemoteSyslogAppender.cpp:144-146 | the preamble is at most 13 bytes for every int, so it and its NUL fit the spare 16 |
| RemoteSyslogAppender.RemoteSyslogAppender.Append | log4cpp/src/RemoteSyslogAppender.cpp:141-170 | the loop with its in-place moves ends, stays inside the buffer, and sends exactly those datagrams |
| RemoteSyslogAppender.RemoteSyslogAppender.ToSyslogPriority | log4cpp/src/RemoteSyslogAppender.cpp:36-54 | the severity, by truncating division and the table |
| RemoteSyslogAppender.RemoteSyslogAppender.MemMove | log4cpp/src/RemoteSyslogAppender.cpp:161-161 | moves overlapping bytes inside the buffer |
| SlidingWindow.SentUpToTrigger | log4cpp/src/BufferingAppender.cpp:22-51 | each trigger sends exactly the last max_size events since the one before, oldest first, as one message |
| SlidingWindow.TextsInOrder | log4cpp/src/BufferingAppender.cpp:41-51 | a message holds the layout of each of its events, in their order |
| SlidingWindow.LastIs | log4cpp/src/BufferingAppender.cpp:22-28 | the last n events are n, or all when there are fewer, and the others came before them |
| SlidingWindow.SilentWithoutTrigger | log4cpp/src/BufferingAppender.cpp:22-37 | nothing is sent without a trigger |
| BufferingAppender.BufferingAppender.constructor | log4cpp/src/BufferingAppender.cpp:15-20 | an empty queue for at least one event, not lossy |
| BufferingAppender.BufferingAppender.Append | log4cpp/src/BufferingAppender.cpp:22-37 | the queue holds the last min(max_size, k) of the k events since the last trigger when lossy, and all of them otherwise; what is sent, and when |
| BufferingAppender.BufferingAppender.Dump | log4cpp/src/BufferingAppender.cpp:41-51 | one message with the kept events' texts, oldest first |
| BufferingAppender.BufferingAppender.SetLossy | log4cpp/include/log4cpp/BufferingAppender.hh:27-27 | the queue goes on standing for the events it should exactly when the new mode is not lossy or the queue has not outgrown max_size |
| BufferingAppender.BufferingAppender.BoundExactly | log4cpp/src/BufferingAppender.cpp:22-37 | the queue's bound holds exactly in lossy mode or while no more than max_size events have come since the last trigger |
| BufferingAppender.OutgrownExample | log4cpp/src/BufferingAppender.cpp:22-37 | two events in a queue for one |
| BufferingAppender.AppendAll | log4cpp/src/BufferingAppender.cpp:22-51 | a whole lossy run sends what the sliding window says |
| XmlEscape.ReplaceChar | unittest-cpp-master/UnitTest++/XmlTestReporter.cpp:16-20 | the in-place loop ends and replaces every occurrence; with an empty replacement it skips the character behind each removed one |
| XmlEscape.NeverEnds | unittest-cpp-master/UnitTest++/XmlTestReporter.cpp:16-20 | with the character behind the first position of the replacement, each round leads to another |
| XmlEscape.Escape | unittest-cpp-master/UnitTest++/XmlTestReporter.cpp:22-33 | the five replacements in a row are one replacement of each character on its own |
| XmlEscape.DecodeEscaped | unittest-cpp-master/UnitTest++/XmlTestReporter.cpp:22-33 | decoding the predefined entities of section 4.6 of XML 1.0 gives back every text |
| XmlEscape.EscapedWellFormed | unittest-cpp-master/UnitTest++/XmlTestReporter.cpp:22-33 | the output has no raw `<`, `>`, `'` or `"`, and every `&` starts one of the five entities |
| XmlEscape.EscapeDecoded | unittest-cpp-master/UnitTest++/XmlTestReporter.cpp:22-33 | every such text is the escape of what it decodes to |
| XmlEscape.OneReplacement | unittest-cpp-master/UnitTest++/XmlTestReporter.cpp:26-30 | a later pass does not touch the entities of the earlier ones |
| XmlEscape.EscapedPart | unittest-cpp-master/UnitTest++/XmlTestReporter.cpp:22-33 | which entity each of the five special characters becomes, wherever it stands, and that the others stay |
| RoundUp.RoundUpExact | unittest-cpp-master/UnitTest++/MemoryOutStream.cpp:72-75 | the masked sum is the least multiple not below n, for every power of two and every n without overflow |
| RoundUp.AndMask | unittest-cpp-master/UnitTest++/MemoryOutStream.cpp:72-75 | the mask clears the low bits |
| MemoryStream.MemoryOutStream.constructor | unittest-cpp-master/UnitTest++/MemoryOutStream.cpp:80-86 | for sizes from 1: an empty text in a buffer of the least multiple of 32 |
| MemoryStream.FirstWriteInBounds | unittest-cpp-master/UnitTest++/MemoryOutStream.cpp:198-213 | for every size, the first write is inside the buffer exactly when the size is at least 1, and the buffer has 0 bytes for sizes from -31 to 0 |
| MemoryStream.SizeZero | unittest-cpp-master/UnitTest++/MemoryOutStream.cpp:80-86 | size 0 gives a buffer of 0 bytes |
| MemoryStream.MemoryOutStream.GrowBuffer | unittest-cpp-master/UnitTest++/MemoryOutStream.cpp:198-213 | a larger buffer with the same text |
| MemoryStream.MemoryOutStream.Append | unittest-cpp-master/UnitTest++/MemoryOutStream.cpp:103-118 | the old text followed by the new, every write in bounds, growing only when it has to |
| MemoryStream.MemoryOutStream.Clear | unittest-cpp-master/UnitTest++/MemoryOutStream.cpp:93-96 | the empty text |
| MemoryStream.MemoryOutStream.GetText | unittest-cpp-master/UnitTest++/MemoryOutStream.cpp:98-101 | the text in the buffer |

## Left out

- ThreadIt: the worker's loop is a step relation on values rather than a method, because every interleaving with the clients matters. A stop signal may be sent at any time after the exit flag is set, calls that a worker method makes on its own object appear as another client's, and queues supplied by callers are a multiset, without their order.
- ProtectedQueue.ProtectedQueue.Clear: other threads may be inside the queue but do not move while it runs; `clear` drains items and semaphore in separate steps, and the protocol has no such steps.
- ProtectedQueue.ProtectedQueue.WaitItem: for one thread running alone the wait succeeds at once or times out; waiting while others run is in the protocol's steps. The same holds for MtQueue.
- Thread creation, priorities and naming, the asynchronous procedure calls, and `TerminateThread` paths of `active.cpp`: foreign calls.
- Observer lists of `threaditobserver.cpp`: `cleanExpiredObservers` detaches through a comparison that is false for expired observers, so the code does not decide what it is meant to do.
- Timer: true time is a parameter and only the tick counter is modelled; the second clock of other platforms is not.
- Snprintf: string arguments are taken to be shorter than 2^31 characters; reading past the end of the arguments, or as another type, is undefined in C and yields a fixed argument here; the text of `%p` is uninterpreted; `long long` counts as `long`, as it does when LONGLONG is not defined; negating the least int as a width is undefined in C and gives 2^31 here.
- Snprintf.Vform: only for field widths and literals that add up to less than 2^31, beyond which the returned int is negative or too small and the loop doubles its buffer or stops early.
- PatternLayout: `strftime`, clocks and their texts are functions of the event. A pattern that ends behind `%` reads an uninitialised character and is shown to be rejected for every value of it. The absolute value of the least int as a width is undefined in C++. Category names are taken to be shorter than 2^63 characters.
- PatternLayout.PatternLayout.SetConversionPattern: what components a rejected pattern leaves behind is not stated; the source leaves those compiled before the error.
- Properties: `getenv` is a function of the name; `getInt`, `getBool` and `getString` are look-ups; a stream with read errors other than its end is not modelled.
- RollingFileAppender: file operations succeed, except renaming and removing files that do not exist; the width of the backup index, which the source computes from a floating-point logarithm, is arbitrary.
- Category: appender ownership, removal and the locks; the order in which the appenders of one category are called is left open, as the set orders them by address.
- RemoteSyslogAppender: the socket; the facility plus a severity must not overflow an int.
- MemoryStream.MemoryOutStream.constructor: sizes below 1 are excluded, because the NUL would be written outside the buffer, or the allocation refused; the texts that `operator <<` makes of numbers are cut at 31 characters by `snprintf` and are not modelled.
- XmlEscape.ReplaceChar: a replacement with the character behind its first position is excluded when the character occurs, because the loop then never ends. The five calls meet this.
- Buffering: the triggering evaluator is a function of the event.
- Daily rolling, SMTP, Idsa, NT event log, console and file-descriptor appenders, configurators, factories, NDC, filters, priority names, `CWorkPackIt` copying, `CompositeTestReporter`, `TestResults` and the test macros: input/output plumbing, or finite and easy.
