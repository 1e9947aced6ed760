# Verified models of the kernel assignments

This project models the parts of the repository that carry state and proves what they keep true over whole
runs: the two kinds of pipe, the descriptor tables, the debugger, thread-private memory, the round-robin
scheduler, and the two user programs with a codec and a modular-arithmetic check. `dafny verify dfyconfig.toml`
checks everything.

Code that works in place is modelled in place: classes over arrays, a linked list and maps, with the loops of the
original. Every such method is proved against a function or a predicate on values, and the properties are proved
about those. Each part has its own files.

- **Persistent pipe** (`PersistentLog`, `PersistentPipe`, `Ring`, `PidSlots`). The meaning is an append-only log with
  one absolute read offset per process and a mark below which space was reclaimed. The kernel's structure, a
  4096-byte ring with start, end and length and sixteen records, refines it: every operation moves the log as
  prescribed and keeps every live byte at its absolute offset modulo 4096.
- **Ordinary pipe and descriptors** (`Pipe`, `PipeEnds`, `UserMemory`, `FileTables`, `FileLifetimes`, `FileCalls`,
  `DuplicatedEnds`, `DescriptorCalls`). One shared read position makes the pipe a bounded FIFO. Files, tables and
  pipe records of all seven processes form one state; its invariant ties reference counts to descriptors and pipe
  records to tables. The calls work on tables of references to shared file objects, whose counts and pipe records
  change in place.
- **Debugger** (`Debuggee`, `BreakpointTable`, `Debugger`, `CallTree`, `CallTreeProofs`, `DebugSession`). A machine
  with text bytes, stack words and rip, rsp, rbp runs trees of calls, whose bodies also assign to local variables,
  with patched entries and redirected returns. The ghost call stack is what backtraces and return addresses are
  compared with.
- **Thread-private memory** (`PageTables`, `PrivateMemory`, `ThreadTable`, `PrivateSwitch`, `PrivateHandlers`,
  `PrivateMappings`, `PrivateRuns`). Page tables are frames of 512 words as in section 4.5 of the Intel SDM Volume
  3A; error codes are those of section 4.7. The tables form an unshared tree, and translations are read off it.
- **Scheduler and hand-over** (`Scheduler`, `DebugPair`). The wrapping search, the timer tick, sleeping, and the way
  in which a debugger and its debuggee pass the processor to each other.
- **User programs** (`Decimal`, `ArchiveFormat`, `Archive`). The argument check that parses modulo 2^64 and prints
  again, and the archiver with its 328-byte headers, chunked copies and files that are opened without truncation.

Some things hold only under a condition of the code's own making. They are stated as an equivalence with that
condition: `CreateKeepsInvIff`, `OpenStandardKeepsInvIff`, `DupKeepsInvIff` and `Dup2KeepsInvIff` (which calls break
the descriptor invariant), `DupThenCloseIsExactIff` and `Dup2ThenCloseIsExactIff` (when the reference count of a
duplicated pipe end survives both closes), `LastFindsCloneIff` and `CloneKeepsUniqueIff` (when the context switch
finds a new thread's slot), `TestIsContainmentIff` and `CheckIsRightIff` (the check of a user's buffer takes the end
of a span, which is one past its last byte, for its last byte), `SetAgreesWithListIff` (a set writes the text before
it knows whether it succeeds), `NumbersWrap`, `ArgumentsInPlaceIff` (a watched end pushes the return address twice),
`OwnerFoundIff` (the search for an area's owner stops at the first unused slot), `JudgementFollowsRuleIff` (the fault
handler tests the present bit where its comment and its constants mean the write bit), `FixedFaultIsolatedIff`,
`AnyFaultIsolatedIff` and `HandledFaultIsolatedIff` (which faults open a page too early), `EntryDecodes` (frame
numbers of at most 20 bits), `SumFitsIff` (an `int` sum that overflows for the last 511 sizes), `OverlayIsExactIff`
and `RoundTripOverLonger` (no truncation), `DoubledIsTwiceIff`. Inputs on which the conditions fail:
`ByteAtEndIsAccepted` and `ByteOfNextAreaIsRefused` for the buffer check, and at the end of concrete runs
`LeakIsReachable`, `LastWithPidCanBeStale` and `LiveOwnerIsNotFound`.

Where the code and its comments disagree, the code is modelled. A persistent pipe's close compares where it means
to assign, so no record is ever given up and the pages never are; the flush of a pipe without open readers returns
0; removing a breakpoint behind the head consults the flag of the breakpoint in front of it; an exiting thread's
record keeps its pid.

## Model

| member | source | states |
|---|---|---|
| PersistentPipes.PersistentPipe.constructor | Assignment_2/190547/src/ppipe.c:50-89 | The new ring and records represent the empty log, held at both ends by the creator alone |
| PersistentPipes.PersistentPipe.Fork | Assignment_2/190547/src/ppipe.c:101-158 | The child gets its parent's ends and offset, or EOTHERS and no change if the parent has no record or sixteen other processes have held the pipe |
| PersistentPipes.PersistentPipe.Close | Assignment_2/190547/src/ppipe.c:162-226 | One end of one process is closed, EOTHERS for a stranger, and in no state are the pages freed |
| PersistentPipes.PersistentPipe.Flush | Assignment_2/190547/src/ppipe.c:229-292 | Returns the reclaimable length of the log, raises the mark by it, and keeps all live bytes and offsets in place |
| PersistentPipes.PersistentPipe.Read | Assignment_2/190547/src/ppipe.c:295-363 | Copies exactly the next unread bytes of the log, at most `count`, to the caller, touches nothing behind them, and returns the error codes in the code's order |
| PersistentPipes.PersistentPipe.Write | Assignment_2/190547/src/ppipe.c:366-432 | Appends the longest prefix of the data that leaves at most 4096 bytes live |
| PersistentPipes.FreeRecordIffRoom | Assignment_2/190547/src/ppipe.c:119-134 | A free record is left exactly while fewer than sixteen processes have held the pipe |
| PersistentPipes.MinimumIsReclaimable | Assignment_2/190547/src/ppipe.c:250-273 | The minimum over the open readers' counters is the largest prefix that all of them have read, 0 without readers |
| PersistentLog.StepKeepsWellFormed | Assignment_2/190547/src/ppipe.c:101-432 | Every operation keeps all open readers' offsets between mark and end, and at most 4096 bytes live |
| PersistentLog.FlushReclaimsCommonPrefix | Assignment_2/190547/src/ppipe.c:229-292 | A flush reclaims at least `n` bytes if and only if every open reader has consumed them; with no reader it reclaims nothing |
| PersistentLog.FlushFreesExactlyAndOnce | Assignment_2/190547/src/ppipe.c:275-290 | Log and offsets survive a flush, free space grows by the returned amount, and an immediate second flush returns 0 |
| PersistentLog.ForkGivesParentsEnds | Assignment_2/190547/src/ppipe.c:101-158 | The child gets its parent's ends if the parent is on record, and the child is too or fewer than sixteen processes have held the pipe; otherwise nothing changes |
| PersistentLog.ForkTwiceIsForkOnce | Assignment_2/190547/src/ppipe.c:107-152 | The second of the two fork calls changes nothing, and no other process's offset moves |
| PersistentLog.ReadDeliversAllItMay | Assignment_2/190547/src/ppipe.c:295-363 | The refusals of a read in their order; otherwise `count` bytes or all that are left, from the caller's offset on, which alone moves |
| PersistentLog.WriteTakesAllThatFits | Assignment_2/190547/src/ppipe.c:366-432 | The refusals of a write in their order; otherwise a prefix is appended that is all of the data or fills the ring |
| PersistentLog.MessageArrives | Assignment_2/190547/src/ppipe.c:50-432 | A message of at most 4096 bytes that the creator writes arrives whole at the creator and at its child |
| PersistentLog.CloseClosesExactly | Assignment_2/190547/src/ppipe.c:196-204 | A close of one end by a process on record closes that end of that process and no other |
| PersistentLog.ClosedEndIsRefused | Assignment_2/190547/src/ppipe.c:162-226 | Over every run that starts no process under the same pid, each later use of a closed end is refused with EINVAL |
| PersistentLog.ClosedReaderHoldsNothingBack | Assignment_2/190547/src/ppipe.c:229-292 | After a reader has closed, a flush reclaims exactly what all remaining open readers have consumed, and nothing without any |
| PersistentLog.RunAppends | Assignment_2/190547/src/ppipe.c:366-432 | Over every run the log grows by exactly the accepted bytes |
| PersistentLog.ReaderReceivesTheLog | Assignment_2/190547/src/ppipe.c:295-363 | Over every run of all processes, a reader receives the log from its own offset on, nothing lost, repeated or reordered |
| PersistentLog.ChildReceivesWhatParentHadUnread | Assignment_2/190547/src/ppipe.c:147-152 | Over every run after a fork, parent and child each receive exactly the log from the parent's offset at the fork up to their own cursor |
| Ring.CopyIn | Assignment_2/190547/src/ppipe.c:421-424 | The copy loop stores each byte at its absolute offset modulo 4096 and destroys no live byte |
| Ring.CopyOut | Assignment_2/190547/src/ppipe.c:349-352 | The copy loop delivers consecutive bytes of the log across the wrap |
| Pipes.Pipe.constructor | Assignment_2/190547/src/pipe.c:44-80 | A new pipe is empty and held at both ends by its creator |
| Pipes.Pipe.Fork | Assignment_2/190547/src/pipe.c:92-153 | The child's record becomes a copy of the parent's flags, or EOTHERS and no change |
| Pipes.Pipe.Close | Assignment_2/190547/src/pipe.c:156-226 | Clears one flag, gives the record up with the last flag, and frees the pages exactly when all records are free |
| Pipes.Pipe.Read | Assignment_2/190547/src/pipe.c:293-367 | Delivers the oldest bytes in transit, at most `count`, with the code's order of refusals, the check of the buffer included |
| Pipes.Pipe.Write | Assignment_2/190547/src/pipe.c:370-448 | Accepts the longest prefix that fits 4096 bytes in transit, after the same checks |
| UserMemory.IsValidMemRange | Assignment_2/190547/src/pipe.c:229-290 | The first segment, then the first area of the list, whose comparison admits the range decides by its permission |
| UserMemory.TestIsContainmentIff | Assignment_2/190547/src/pipe.c:251-277 | The comparison of both ends says that every byte is inside, if and only if the range does not end one byte behind the span and the address of its last byte does not wrap around |
| UserMemory.InsideIsEveryByte | Assignment_2/190547/src/pipe.c:254 | A span holds a non-empty range, end excluded, exactly if every address of the range is one of the span's |
| UserMemory.MappedMeans | Assignment_2/190547/src/pipe.c:246-287 | What counts as mapped is a segment up to its next free address, the stack segment up to its end, and every area of the list, each with its own permission bits |
| UserMemory.CheckIsRightIff | Assignment_2/190547/src/pipe.c:229-290 | For every map without shared addresses and every non-empty range: the check succeeds exactly if one span with the permission holds every byte, if and only if no overshot span decides it, or that span's permission agrees with what a later span that holds the range allows |
| UserMemory.StraddlingIsJudgedByItsSpan | Assignment_2/190547/src/pipe.c:251-277 | A range that starts in a span and ends one byte behind it is accepted if and only if that span permits, although no span holds it |
| UserMemory.ByteAtEndIsAccepted | Assignment_2/190547/src/pipe.c:268-284 | Two bytes of which the second lies behind the only area are accepted |
| UserMemory.ByteOfNextAreaIsRefused | Assignment_2/190547/src/pipe.c:268-284 | The first byte of the second of two adjacent areas is refused although its area permits it |
| Pipes.PipeIsFifo | Assignment_2/190547/src/pipe.c:345-446 | Over every run of any processes the bytes read are the accepted bytes in order, with at most 4096 in transit |
| Pipes.ReadIsPrefixOfWritten | Assignment_2/190547/src/pipe.c:345-446 | From creation on, all bytes read are a prefix of all bytes accepted, at most 4096 behind |
| Pipes.RefusedIffChecksFail | Assignment_2/190547/src/pipe.c:293-400 | A transfer is refused exactly if the mode, the record, the open flag or the buffer says so, with the error of the first that does |
| Pipes.ReadDeliversAllItMay | Assignment_2/190547/src/pipe.c:330-367 | A read that is not refused delivers `count` bytes or all in transit, the oldest first, and moves nothing but the read position |
| Pipes.WriteTakesAllThatFits | Assignment_2/190547/src/pipe.c:410-448 | A write that is not refused takes all of the data or fills the 4096 bytes |
| Pipes.MessageArrives | Assignment_2/190547/src/pipe.c:44-448 | A message of at most 4096 bytes arrives whole at whichever of creator and child reads first, and is then gone |
| FileCalls.KernelFiles.Close | Assignment_2/gemOS/src/file.c:107-121 | A close empties the entry, drops one reference, deletes the object with its last reference, and runs the pipe handler for a pipe end |
| FileCalls.KernelFiles.ForkFiles | Assignment_2/gemOS/src/file.c:42-66 | Every inherited entry adds a reference and runs its pipe's fork handler |
| FileCalls.KernelFiles.ExitFiles | Assignment_2/gemOS/src/file.c:68-85 | An exit closes every entry in order and leaves an empty table |
| FileCalls.KernelFiles.OpenStandardFile | Assignment_2/gemOS/src/file.c:142-156 | Makes a standard file, or shares the present one at the lowest free descriptor above 2 |
| FileCalls.KernelFiles.OpenRegularFile | Assignment_2/gemOS/src/file.c:237-276 | A new object at the lowest free descriptor above 2, or the code's error for a missing file, a refused mode or a full table |
| FileCalls.KernelFiles.DupFile | Assignment_2/gemOS/src/file.c:285-309 | Shares the object at the lowest free descriptor above 2, EINVAL if there is none or the entry is empty |
| FileCalls.KernelFiles.Dup2File | Assignment_2/gemOS/src/file.c:314-335 | Closes what newfd had and shares the object there; nothing happens if the two are the same descriptor |
| FileCalls.KernelFiles.CreatePipeFiles | Assignment_2/190547/src/pipe.c:451-544 | Two objects and one pipe with the caller's record, at the two lowest free descriptors, or the leak that the code leaves without them |
| FileTables.DropKeepsCounted | Assignment_2/gemOS/src/file.c:107-121 | After a release all counts equal the entries that point to each object, and the object is gone if and only if that was its last entry |
| FileTables.EntriesPointToObjects | Assignment_2/gemOS/src/file.c:42-121 | No entry points to a deleted object |
| DescriptorCalls.OpenRegularAnswers | Assignment_2/gemOS/src/file.c:215-276 | The refusals in their order, or a new object with one reference and the mode asked for at the lowest free descriptor above 2; nothing else changes |
| DescriptorCalls.OpenStandardAnswers | Assignment_2/gemOS/src/file.c:125-156 | A standard file that is not open gets its own number and its mode; one that is open is shared at the lowest free descriptor above 2, without which there is no answer |
| DescriptorCalls.DupAnswers | Assignment_2/gemOS/src/file.c:285-309 | The same object at the lowest free descriptor above 2 with one more reference, or EINVAL and no change; nothing else changes |
| DescriptorCalls.CloseAnswers | Assignment_2/gemOS/src/file.c:107-121 | The entry is empty; its object has one reference less, or is gone if it was the last; no other object and no other pipe changes |
| DescriptorCalls.Dup2Answers | Assignment_2/gemOS/src/file.c:314-335 | The new descriptor's object is closed and the old one's shared there; EINVAL for an empty entry, and no change for equal descriptors |
| DescriptorCalls.CreatePipeAnswers | Assignment_2/190547/src/pipe.c:451-544 | The two lowest free descriptors, read end first, with two new objects of one new pipe that the caller alone holds; refused exactly with fewer than two free descriptors |
| DescriptorCalls.ForkAnswers | Assignment_2/gemOS/src/file.c:42-66 | The child's table is its parent's, and every object gets one reference for each of the parent's descriptors |
| FileLifetimes.CloseRecord | Assignment_2/190547/src/pipe.c:156-226 | Closing an open end changes exactly that process's hold on that end |
| FileLifetimes.CloseKeepsInv | Assignment_2/190547/src/pipe.c:156-226 | A close keeps counts exact, records in step with the tables, and pages alive exactly while an end is held |
| FileLifetimes.ExitKeepsInv | Assignment_2/gemOS/src/file.c:68-85 | An exit does so too |
| FileLifetimes.ForkRecord | Assignment_2/190547/src/pipe.c:92-153 | The fork handler gives the child exactly its parent's ends, and the second call changes nothing |
| FileLifetimes.RecordsNeverRunOut | Assignment_2/190547/src/pipe.c:92-153 | Seven processes always find a free record among sixteen |
| FileLifetimes.ForkKeepsInv | Assignment_2/gemOS/src/file.c:42-66 | A fork keeps the invariant |
| FileLifetimes.HoldsAfterFork | Assignment_2/gemOS/src/file.c:42-66 | After a fork the child holds exactly the pipe ends that its parent holds |
| FileLifetimes.OpenRegularKeepsInv | Assignment_2/gemOS/src/file.c:215-276 | Opening a regular file keeps the invariant, in success and in failure |
| FileLifetimes.OpenStandardKeepsInvIff | Assignment_2/gemOS/src/file.c:142-156 | Opening a standard file keeps the counts always, and the pipe records if and only if the entry it shares is no pipe end |
| FileLifetimes.DupKeepsInvIff | Assignment_2/gemOS/src/file.c:285-309 | dup keeps the counts always, and the pipe records if and only if it does not duplicate a pipe end |
| FileLifetimes.Dup2KeepsInvIff | Assignment_2/gemOS/src/file.c:314-335 | The same for dup2, including two descriptors of one object, which survives the close |
| FileLifetimes.CreateKeepsInvIff | Assignment_2/190547/src/pipe.c:451-544 | create_pipe keeps the invariant if and only if the caller has two free descriptors |
| FileLifetimes.PipeAliveIffHeld | Assignment_2/190547/src/pipe.c:84-89 | A pipe's pages exist if and only if some process has a descriptor for one of its ends |
| FileLifetimes.EndCountIsOpenRecords | Assignment_2/190547/src/pipe.c:156-226 | A pipe end's reference count is the number of records with that end open |
| DuplicatedEnds.DupThenCloseIsExactIff | Assignment_2/gemOS/src/file.c:285-309 | After dup of a pipe end and both closes, the reference count is exact and the whole invariant holds, if and only if the process also holds the other end; then all is as after one close |
| DuplicatedEnds.Dup2ThenCloseIsExactIff | Assignment_2/gemOS/src/file.c:314-335 | The same for dup2, if and only if the process holds the other end at a descriptor other than the one that dup2 replaces |
| DuplicatedEnds.LeakIsReachable | Assignment_2/gemOS/src/file.c:285-309 | Create, close the write end, dup the read end, close both: no descriptor is left and the object still has one reference |
| FileLifetimes.RunKeepsInv | Assignment_2/gemOS/src/file.c:42-335 | Over every run of open, dup, dup2, close, fork, exit and create, without the calls that the equivalences exclude, the invariant holds, and every pipe is freed at most once |
| FileLifetimes.NothingOpenIsInv | Assignment_2/gemOS/src/file.c:20-29 | The run may start with nothing open |
| BreakpointTable.RunKeepsConsistent | Assignment-3/Submission/src/debug.c:292-414 | Over every run of set and remove: distinct addresses, numbers increasing from the head and never reused, count equal to the length and at most 8 |
| BreakpointTable.NumbersWrap | Assignment-3/Submission/src/debug.c:292-372 | The next number keeps the order if and only if 2^32 numbers have not been used up |
| BreakpointTable.RemoveDeletesExactlyOne | Assignment-3/Submission/src/debug.c:377-414 | A remove succeeds exactly on a known address, unless that is on the call stack and the end of the breakpoint in front of it, or of the head itself, is enabled; then exactly that breakpoint goes and the push is put back, else nothing changes |
| BreakpointTable.SetStoresFlag | Assignment-3/Submission/src/debug.c:292-372 | A set succeeds exactly on a known address whose end it does not disable on the call stack, or with room for a new one; then the breakpoint there has the flag asked for, a known one its place and number, a new one the next number, and all others are unchanged |
| BreakpointTable.FlagLasts | Assignment-3/Submission/src/debug.c:292-414 | Over every run of sets and removes of other addresses the flag of the last successful set stays |
| BreakpointTable.SetAgreesWithListIff | Assignment-3/Submission/src/debug.c:292-372 | The byte that a set leaves agrees with the list if and only if the set found the address or room for it and did not enable the end of an active function |
| DebugSession.RunKeepsPatched | Assignment-3/Submission/src/debug.c:292-414 | Over every run of sets and removes that avoid the guard of `SetAgreesWithListIff`, the text traps exactly at the listed functions and the end handler, and pushes at all others |
| DebugSession.SessionIsPatched | Assignment-3/Submission/src/debug.c:266-414 | From do_become_debugger on such a run leaves the text as the main result about call trees requires it |
| Debugger.DebugInfo.constructor | Assignment-3/Submission/src/debug.c:266-287 | A new session has no breakpoints and the end handler starts with a trap |
| Debugger.DebugInfo.SetBreakpoint | Assignment-3/Submission/src/debug.c:292-372 | The linked list, counters and text byte become what the table prescribes |
| Debugger.DebugInfo.RemoveBreakpoint | Assignment-3/Submission/src/debug.c:377-414 | The node is unlinked, or nothing changes, and the list stays linear |
| Debugger.DebugInfo.InfoBreakpoints | Assignment-3/Submission/src/debug.c:421-435 | The list is copied in order, and nothing behind it is written |
| Debugger.DebugInfo.FindHit | Assignment-3/Submission/src/debug.c:123-132 | The list walk finds the first breakpoint at the address or one below |
| Debugger.DebugInfo.CaptureBacktrace | Assignment-3/Submission/src/debug.c:144-159 | The frame walk ends and stores the given entries and the walk's return addresses, zeros behind them |
| Debugger.DebugInfo.FindRecord | Assignment-3/Submission/src/debug.c:215-219 | The topmost record with that return address, -1 if there is none |
| Debugger.DebugInfo.Int3Handler | Assignment-3/Submission/src/debug.c:114-234 | All four branches of the handler have the effect that the machine model gives them |
| Debugger.DebugInfo.DoBacktrace | Assignment-3/Submission/src/debug.c:461-473 | Copies the array up to its first zero, which is what a stop notes as observed, and touches nothing behind it |
| Debugger.DebugInfo.InfoRegisters | Assignment-3/Submission/src/debug.c:441-456 | Returns the registers that the last stop stored |
| CallTreeProofs.WalkCollectsTrueReturns | Assignment-3/Submission/src/debug.c:149-159 | For every set of redirected frames the walk ends and yields the true return addresses of the call stack |
| CallTreeProofs.StepOverIsTransparent | Assignment-3/Submission/src/debug.c:133-195 | From stop to second trap both text bytes return, the push happens once, and execution goes on at the next byte |
| CallTreeProofs.EntryCaptured | Assignment-3/Submission/src/debug.c:142-185 | At an entry stop the backtrace is the function, its caller and the ghost call stack |
| CallTreeProofs.EndCaptured | Assignment-3/Submission/src/debug.c:197-231 | At an end stop it is the true return address and the ghost call stack |
| CallTreeProofs.EntryStopShows | Assignment-3/Submission/src/debug.c:142-185 | At an entry stop the real array holds exactly the function, its caller and the ghost call stack, then zeros; the debugger is told the function's address, the debuggee's registers and rdx_change, and the call is on top of the record |
| CallTreeProofs.EndStopShows | Assignment-3/Submission/src/debug.c:197-231 | At an end stop the real array holds exactly the true return address and the ghost call stack, then zeros, and the record is cut at that call's topmost entry |
| CallTreeProofs.CoversPopped | Assignment-3/Submission/src/debug.c:215-220 | The end handler finds a record, and those of the calls still pending stay on record |
| CallTreeProofs.CallIsTransparent | Assignment-3/Submission/src/debug.c:114-234 | Every call of every call tree returns to its true caller with rsp, rbp, text and the caller's stack and local variables intact; the stops are exactly those of the tree, each with rdx_change 8 times the pending redirections; it fails if and only if one of the handler's 64-entry arrays is outgrown on the way |
| CallTreeProofs.BodyIsTransparent | Assignment-3/Submission/src/debug.c:114-234 | After any body of calls and assignments the frame holds exactly what the body assigned itself, and everything above it is as before |
| CallTreeProofs.FewStopsFit | Assignment-3/Submission/src/debug.c:144-170 | Neither array is outgrown by a tree of at most 63 nested calls that has at most 64 entry stops |
| CallTreeProofs.MainMayCallForever | Assignment-3/Submission/src/debug.c:161-165 | Stops in functions called by main start the record anew, so that any number of such calls fits |
| CallTreeProofs.SameAsUndebugged | Assignment-3/Submission/src/debug.c:114-234 | A call ends in the same registers and caller's stack with and without breakpoints |
| CallTreeProofs.ArgumentsInPlaceIff | Assignment-3/Submission/src/debug.c:177-181 | A called function sees its stack arguments in place if and only if its end is not watched, or all of them equal the return address that was pushed a second time |
| CallTreeProofs.StopsAreBracketed | Assignment-3/Submission/src/debug.c:176-231 | Each watched call gives one entry and one end stop, in last-in first-out order |
| CallTreeProofs.StopsReadBack | Assignment-3/Submission/src/debug.c:461-473 | Whatever do_backtrace may return on the array of a stop of a call tree is the whole backtrace of that stop; the zero at which it ends is there if and only if fewer than 64 entries were captured, which holds in every tree that is not too deep |
| PageTables.EntryDecodes | Assignment-4/gemOS/src/clone_threads.c:199-205 | An entry gives its frame number back if and only if the number has at most 20 bits |
| PageTables.SamePathIffSamePage | Assignment-4/gemOS/src/clone_threads.c:190-193 | The four 9-bit indices of two addresses agree if and only if bits 12 to 47 do |
| PageTables.PathIsPageNumber | Assignment-4/gemOS/src/clone_threads.c:190-193 | The indices are the nine-bit digits of the page number, the first on top |
| PageTables.LeafTableOfOnePath | Assignment-4/gemOS/src/clone_threads.c:195-223 | No last-level table is reached by two different index paths |
| PageTables.HangKeepsTree | Assignment-4/gemOS/src/clone_threads.c:202-222 | Installing an empty table keeps the tree unshared |
| PageTables.HangKeepsTranslations | Assignment-4/gemOS/src/clone_threads.c:202-222 | and changes no translation |
| PageTables.LeafWrite | Assignment-4/gemOS/src/clone_threads.c:226-234 | Writing a leaf changes the translation of its own page only |
| PrivateMemory.JudgementFollowsRuleIff | Assignment-4/gemOS/src/clone_threads.c:164-179 | The decision is the documented one if and only if the area is not read-only for a sibling or present bit and write bit agree |
| PrivateMemory.OwnerFoundIff | Assignment-4/gemOS/src/clone_threads.c:143-160 | For every table: the search finds an owner if and only if a used slot has an area at the address and every slot in front of it is used |
| PrivateMemory.AccessIsThreeBits | Assignment-4/gemOS/src/clone_threads.c:49 | The access mode is bits 4 to 6 of the flags in their places |
| PrivateMemory.WalkKeepsFrames | Assignment-4/gemOS/src/clone_threads.c:8-68 | A permission walk keeps the tree and every page's frame |
| PrivateMemory.WalkSparesOthers | Assignment-4/gemOS/src/clone_threads.c:8-68 | and every page outside its area |
| PrivateMemory.WalkRecodes | Assignment-4/gemOS/src/clone_threads.c:8-68 | A page gets the new bits if and only if it and all earlier pages of the area are mapped |
| PrivateHandlers.ThreadedSpace.MapPage | Assignment-4/gemOS/src/clone_threads.c:190-235 | The page of the address is mapped afterwards, to the newly allocated frame and read-write if it was not; a present leaf keeps its value, every other translation is unchanged, entries only change to permissions 7, and the tables form a tree |
| PrivateHandlers.ThreadedSpace.FindArea | Assignment-4/gemOS/src/clone_threads.c:143-160 | The two search loops with their shared index find the first area that covers the address, or the slot's area at the index that was never set if the first slot is unused |
| PrivateHandlers.ThreadedSpace.HandleFault | Assignment-4/gemOS/src/clone_threads.c:134-236 | For every table the verdict follows what the search runs into; only a granted fault touches the tables, and then as MapPage does |
| PrivateHandlers.ThreadedSpace.PageWalk | Assignment-4/gemOS/src/clone_threads.c:8-68 | The loop over an area's pages has the effect of the walk, up to the first page that is not mapped |
| PrivateHandlers.ThreadedSpace.ContextSwitch | Assignment-4/gemOS/src/clone_threads.c:243-279 | A switch walks the areas of the threads concerned in the code's order, and does nothing towards the process |
| PrivateRuns.SwitchFindsSlots | Assignment-4/gemOS/src/clone_threads.c:248-256 | In every state of a run the handler's search by pid finds the slots of the running and of the next thread, and none for the process |
| PrivateSwitch.SwitchThreadsEffect | Assignment-4/gemOS/src/clone_threads.c:257-264 | The new thread's pages get bits 7 and the old one's their sharing code, area by area if populated in order; all others stay |
| PrivateSwitch.SwitchFromProcessEffect | Assignment-4/gemOS/src/clone_threads.c:266-275 | The new thread's pages get bits 7 and every other used thread's their sharing code, area by area if populated in order |
| PrivateSwitch.FaultKeepsIsolated | Assignment-4/gemOS/src/clone_threads.c:190-235 | A fault on the next page of an area that may be written now keeps the isolation |
| PrivateSwitch.FixedFaultIsolatedIff | Assignment-4/gemOS/src/clone_threads.c:134-236 | A fixed fault of an owned page keeps the isolation if and only if the page was mapped, or the area's earlier pages are and either no thread or the owner runs or siblings may write |
| PrivateSwitch.AnyFaultIsolatedIff | Assignment-4/gemOS/src/clone_threads.c:134-236 | After any fault, whatever the handler's verdict and its unset index are, the isolation holds if and only if no page was granted out of order or to a sibling that may not write it |
| PrivateSwitch.HandledFaultIsolatedIff | Assignment-4/gemOS/src/clone_threads.c:134-236 | With the search's index set, that is if and only if the page was not mapped out of order and not mapped read-only for a sibling, which happens when the present bit is 0 |
| PrivateRuns.StepKeepsIsolated | Assignment-4/gemOS/src/clone_threads.c:76-279 | Each clone, exit, map, unmap and switch, each fault that the handler decides without granting a page too early, and each setting of accessed and dirty bits keeps the isolation; only unmapping changes which frame a mapped page has |
| PrivateRuns.RunStaysIsolated | Assignment-4/gemOS/src/clone_threads.c:76-279 | Over every run of such steps the running thread's mapped pages have permission bits 7, all others' their sharing code, and without unmapping no page changes its frame |
| PrivateRuns.RunProtectsPages | Assignment-4/gemOS/src/clone_threads.c:48-60 | At the end of every run the running thread may read and write its mapped pages; another thread's it may read if and only if the area is not closed to siblings, and write if and only if it is not read-only either |
| PrivateRuns.LiveOwnerIsNotFound | Assignment-4/gemOS/src/clone_threads.c:143-160 | At the end of a concrete run of two clones, two switches, a map and an exit, a live thread owns the address and the search does not find it |
| PrivateRuns.ProcessStartsIsolated | Assignment-4/gemOS/src/clone_threads.c:86-90 | The zeroed thread table over any page-table tree is a state from which a run may start |
| PrivateRuns.EmptyStartsIsolated | Assignment-4/gemOS/src/clone_threads.c:86-90 | So is the zeroed table over empty page tables |
| PrivateMappings.MapPrivate | Assignment-4/template/clone_threads_helper.c:137-161 | The first record without an owner in the slot of the caller's pid takes the area; nothing happens for a caller that is no thread, has no slot, or has no such record |
| PrivateMappings.UnmapPrivate | Assignment-4/template/clone_threads_helper.c:189-212 | Exactly the record found by start and length is released, the process searching all threads and a thread its own slot; a thread is killed, and the process ignored, if there is none |
| PrivateMappings.MapKeepsLaid | Assignment-4/template/clone_threads_helper.c:103-161 | Recording an area that overlaps none keeps all areas disjoint, adds exactly its addresses, and fails if and only if the thread has four |
| PrivateMappings.UnmapReleasesExactly | Assignment-4/template/clone_threads_helper.c:120-212 | Process and owner both find that very record, and releasing it keeps the layout |
| PrivateMappings.MapRecordsWhatWasAsked | Assignment-4/template/clone_threads_helper.c:103-161 | The thread's first free record takes start, length and flags as asked, and nothing else changes |
| PrivateMappings.UnmapFindsWhatIsAskedFor | Assignment-4/template/clone_threads_helper.c:120-212 | A record is found only if it is owned, starts there and has that length, any for length 0, in a used slot for the process and in its own for a thread; none is found only if there is none |
| PrivateMappings.ReleaseTakesItsAddresses | Assignment-4/template/clone_threads_helper.c:209 | Exactly the record's addresses leave its thread, and none leave the others |
| PrivateMappings.OthersCannotUnmap | Assignment-4/template/clone_threads_helper.c:184-212 | A thread that does not own an area finds no record for it |
| ThreadTable.ThreadInfo.Clone | Assignment-4/gemOS/src/clone_threads.c:102-113 | The first unused slot takes the pid; it fails if and only if all are in use |
| ThreadTable.FindThread | Assignment-4/template/clone_threads_helper.c:38-52 | The first slot with the pid, in use or not |
| ThreadTable.ThreadInfo.Exit | Assignment-4/template/clone_threads_helper.c:56-81 | The slot found by pid becomes unused and keeps its pid, exactly its owned areas are handed to the kernel to unmap, the context becomes UNUSED or EXITING, the parent READY; a context without a slot is left alone |
| ThreadTable.OwnedAreasAre | Assignment-4/template/clone_threads_helper.c:67-71 | The unmapped areas are exactly those that the thread owns |
| ThreadTable.LookupFindsLiveSlot | Assignment-4/template/clone_threads_helper.c:38-81 | Over every run of clones and exits the status-blind lookup of a live thread finds its live slot |
| ThreadTable.ExitEndsThatThread | Assignment-4/template/clone_threads_helper.c:56-81 | An exit ends exactly the thread that exits |
| ThreadTable.CloneStartsThatThread | Assignment-4/gemOS/src/clone_threads.c:102-113 | The pid becomes live in the first unused slot, which keeps its areas, and no other thread starts or ends; nothing changes in a full table |
| ThreadTable.ExitKeepsPidAndAreas | Assignment-4/template/clone_threads_helper.c:56-81 | An exit changes the first slot with the pid to unused and nothing else |
| ThreadTable.LastFindsCloneIff | Assignment-4/gemOS/src/clone_threads.c:102-113 | The context switch's last-match lookup finds a new thread's slot if and only if no record behind it carries its pid |
| ThreadTable.CloneKeepsUniqueIff | Assignment-4/gemOS/src/clone_threads.c:102-113 | Under the same condition, and only then, a clone keeps the pids of live threads unique |
| ThreadTable.LookupsAgree | Assignment-4/gemOS/src/clone_threads.c:248-256 | While they are unique, first-match and last-match lookup both find every live thread's own slot |
| ThreadTable.LastWithPidCanBeStale | Assignment-4/gemOS/src/clone_threads.c:248-256 | At the end of a concrete run the last-match lookup of a live thread's pid returns an unused slot, while the first-match lookup returns the live one |
| Scheduler.PickNextContext | Assignment-3/src/schedule.c:15-33 | The wrapping search ends with the first READY context after the current one, 0 if there is none |
| Scheduler.PickIsFirstReady | Assignment-3/src/schedule.c:15-33 | The choice is READY and no READY context comes before it in the cycle |
| Scheduler.PickIsLowestReady | Assignment-3/src/schedule.c:15-33 | The choice is the lowest READY pid above the current one, else the lowest from 1 up, else 0 |
| Scheduler.PickZeroIff | Assignment-3/src/schedule.c:15-33 | The swapper is chosen if and only if no other context is READY |
| Scheduler.NobodyStarves | Assignment-3/src/schedule.c:15-33 | A context that stays READY is chosen within MAX_PROCESSES - 1 dispatches, however the others change |
| Scheduler.SleepLastsExactly | Assignment-3/src/schedule.c:36-63 | A sleeper waits for exactly the ticks it asked for and can run from then on |
| Scheduler.ReadyRunsSoon | Assignment-3/src/schedule.c:110-152 | A READY context is running within MAX_PROCESSES - 1 ticks |
| Scheduler.TickDoes | Assignment-3/src/schedule.c:36-152 | A tick takes one off every sleep, makes READY who has none left and the interrupted context, RUNNING the chosen one unless it is chosen over itself, and changes nobody else |
| Scheduler.Contexts.SwitchTo | Assignment-3/src/schedule.c:73-91 | The context becomes current and RUNNING |
| Scheduler.Contexts.AccountSleep | Assignment-3/src/schedule.c:36-48 | One tick off every sleeper, READY at zero, everything else unchanged |
| Scheduler.Contexts.HandleTimerTick | Assignment-3/src/schedule.c:110-152 | Account, requeue, pick, switch; a context chosen over itself stays READY while it runs |
| DebugPair.DebuggerOnFork | Assignment-3/Submission/src/debug.c:81-88 | The child waits, with its parent's remaining sleep and without a debug record, and the parent's record names it; no other record changes |
| DebugPair.DoWaitAndContinue | Assignment-3/Submission/src/debug.c:481-490 | The debugger waits and the context that its record names runs |
| DebugPair.LeaveTrap | Assignment-3/Submission/src/debug.c:182-230 | A stop hands over to the context's parent, a step-over keeps the debuggee running and lets the parent wait |
| DebugPair.DoExit | Assignment-3/src/entry.c:54-76 | A context without a debug record wakes its parent; the slot is freed and the next context scheduled, or the machine shut down if and only if only the swapper is left |
| DebugPair.ForkBegins | Assignment-3/Submission/src/debug.c:81-88 | The session begins with the debugger awake and the child waiting |
| DebugPair.RunKeeps | Assignment-3/Submission/src/debug.c:81-490 | Over every run of waits, traps, ticks, and exits, sleeps and hand-overs of third contexts, exactly one of the pair is READY or RUNNING, decided by the waits and stops alone, and at most one context is RUNNING |
| DebugPair.WaitsAndStopsAlternate | Assignment-3/Submission/src/debug.c:481-490 | No second wait before a stop, no second stop before a wait |
| DebugPair.HandOverIsImmediate | Assignment-3/Submission/src/debug.c:182-230 | A wait puts the debuggee on the processor, a stop the debugger, a step-over leaves the debuggee there; the other one waits and no third context changes |
| DebugPair.TurnIsTaken | Assignment-3/src/schedule.c:110-152 | The one that is awake gets the processor within MAX_PROCESSES - 1 ticks |
| DebugPair.ExitWakesDebugger | Assignment-3/Submission/src/debug.c:241-247 | The debuggee's exit leaves the debugger awake and the slot free |
| DebugPair.ExitDoes | Assignment-3/src/entry.c:54-76 | The context is gone, a woken parent READY, everybody else as before, and the search's choice runs |
| Decimal.ConvertToULL | Assignment1/190547/Part1/double.c:17-29 | The loop computes the numeral's value modulo 2^64, 0 as soon as something is not a digit |
| Decimal.ValueOfOneMore | Assignment1/190547/Part1/double.c:17-29 | One digit more makes it ten times the number plus the digit |
| Decimal.PrintReadsBack | Assignment1/190547/Part1/double.c:40 | Every printed number is a canonical numeral and reads back |
| Decimal.ReadPrintsBack | Assignment1/190547/Part1/double.c:40-41 | A canonical numeral is the only one with its value |
| Decimal.AcceptsIff | Assignment1/190547/Part1/double.c:38-45 | The check accepts exactly the canonical numerals below 2^64 |
| Decimal.OverflowIsRejected | Assignment1/190547/Part1/double.c:38-45 | No overflowing numeral passes for the number it wraps to |
| Decimal.Double | Assignment1/190547/Part1/double.c:31-55 | The error exit for a refused argument, the printed double modulo 2^64 otherwise |
| Decimal.DoubledIsTwiceIff | Assignment1/190547/Part1/double.c:46 | The result is twice the argument if and only if that is below 2^64 |
| Decimal.ChainComputes | Assignment1/190547/Part1/double.c:46-75 | `k` programs that start one another compute the 2^k-fold modulo 2^64, and none but the first can refuse |
| Decimal.ChainFailsIff | Assignment1/190547/Part1/double.c:41-75 | A chain of such programs fails if and only if the first argument is refused |
| Archive.Read512 | Assignment1/190547/Part2/myTar.c:37-63 | Exactly `totSize` bytes are copied, or only passed over, whatever the size, and the sum in the loop guard never overflows |
| Archive.SumFitsIff | Assignment1/190547/Part2/myTar.c:42 | The loop's sum fits an `int` if and only if the size is not among the last 511 |
| Archive.FillHeader | Assignment1/190547/Part2/myTar.c:161-165 | Name, directory and size read back from the record, whatever the buffer held before |
| Archive.CountFiles | Assignment1/190547/Part2/myTar.c:130-142 | The counting pass counts exactly the files that the second pass archives |
| Archive.CreateTar | Assignment1/190547/Part2/myTar.c:113-187 | What is written is an archive of exactly the regular files other than the tar file, in order |
| Archive.Extract | Assignment1/190547/Part2/myTar.c:189-247 | The dump directory holds what writing every record in order gives; failure for an existing directory or a missing count |
| Archive.ExtractSingle | Assignment1/190547/Part2/myTar.c:249-328 | The first record of that name is written over the file that was there; missing and failed cases |
| Archive.List | Assignment1/190547/Part2/myTar.c:330-388 | The listing of size, count, names and sizes is written over the file that was there |
| Archive.RoundTrip | Assignment1/190547/Part2/myTar.c:113-247 | After create and extract, with no longer tar file there before, a file is in the dump with certain bytes if and only if it is a regular file of the directory with those bytes, other than the tar file |
| Archive.RoundTripOverLonger | Assignment1/190547/Part2/myTar.c:113-247 | Over a longer tar file that leaves whole records behind, extraction writes their files as well; the dump equals the directory's if and only if each of them is the beginning of a file archived anew |
| Archive.SelectedInOrder | Assignment1/190547/Part2/myTar.c:113-187 | The files are archived in the order of the directory |
| ArchiveFormat.AppendRecord | Assignment1/190547/Part2/myTar.c:167-182 | One more record is one more entry, and the earlier ones read as before |
| ArchiveFormat.ArchiveLayout | Assignment1/190547/Part2/myTar.c:11-20 | Byte for byte: the count in the first four bytes, low byte first, then records of a name ended by a zero within 20 bytes, the size in eight bytes at 320, and the contents at 328, and nothing else |
| ArchiveFormat.ExtractInvertsCreate | Assignment1/190547/Part2/myTar.c:230-245 | An archive of distinct names extracts to exactly its files, byte for byte |
| ArchiveFormat.SingleAgreesWithAll | Assignment1/190547/Part2/myTar.c:292-324 | Single and full extraction agree on which files exist, and on the bytes if and only if no longer file was there |
| ArchiveFormat.FirstNamedIsFirst | Assignment1/190547/Part2/myTar.c:292-324 | The record that is extracted alone is the first of its name |
| ArchiveFormat.ListingDetermines | Assignment1/190547/Part2/myTar.c:362-380 | The listing determines the archive's size, the count, and all names and sizes in order, for names without a newline |
| ArchiveFormat.NumeralDenotes | Assignment1/190547/Part2/myTar.c:363-376 | A printed number is a canonical decimal numeral with that value |
| ArchiveFormat.ListingReadsAs | Assignment1/190547/Part2/myTar.c:362-380 | Split at newlines, the listing is two lines with the archive's size and the number of files in canonical decimal, and then one line for each file in order: its name, a space, its size in canonical decimal |
| ArchiveFormat.OverlayIsExactIff | Assignment1/190547/Part2/myTar.c:115 | A file opened without truncation holds just what is written if and only if it was not longer before |

## Left out

- PersistentPipes.PersistentPipe.Close: ends at the release of the file object, which belongs to the descriptor tables; those are modelled for ordinary pipes, standard and regular files only.
- FileCalls.KernelFiles.OpenStandardFile: requires a free descriptor behind 2 when it shares a file, because the code's search has no end otherwise.
- UserMemory.CheckIsRightIff: about ranges of at least one byte, and about maps whose spans share no address.
- FileCalls.KernelFiles.ExitFiles: requires the invariant of the descriptor tables, so that no close handler meets a deleted object; FileCalls.KernelFiles.Dup2File does so too.
- FileLifetimes.RunKeepsInv: excludes the calls that the equivalences above show to break the invariant: duplicating a pipe end, sharing one through the open of a standard file, and creating a pipe without two free descriptors.
- DuplicatedEnds.DupThenCloseIsExactIff: a pipe whose pages have been freed is taken to have no record of any process; the code then reads the freed page.
- Debugger.DebugInfo.RemoveBreakpoint: excludes the empty list, where the code reads through a null head.
- Debugger.DebugInfo.CaptureBacktrace: requires a frame chain that ends at main and at most 64 entries, beyond which the code writes past its array.
- Debugger.DebugInfo.DoBacktrace: requires a zero in the array; `StopsReadBack` says when a stop leaves one.
- Debugger.DebugInfo.Int3Handler: requires what the handler's 64-entry arrays need to hold what this trap makes it write, and that the frame chain ends at main.
- CallTreeProofs.CallIsTransparent: the debugger only continues while stopped; breakpoint edits at a stop are not part of the tree's run. main's own frame is not redirected, the end handler has no breakpoint, functions are at least two bytes apart and not at address 0, the byte before each is no push, and return addresses are neither the end handler's, nor main's call site, nor 0.
- DebugSession.RunKeepsPatched: excludes the calls after which text and list disagree by `SetAgreesWithListIff`, and removing from an empty list.
- PrivateHandlers.ThreadedSpace.HandleFault: while the first slot is unused the code reads an index it never set; it is a parameter, and must lead into the slot's four areas. The parent of the context in a stale slot is taken to be the process. The call that ends a process is a verdict here, not a loss of control.
- PrivateHandlers.ThreadedSpace.ContextSwitch: requires that a switch away from the process leads to a thread; otherwise the code reads through a null record.
- PrivateRuns.RunStaysIsolated: areas are disjoint runs of pages below 2^48, clones meet the condition of `CloneKeepsUniqueIff`, and faults that of `AnyFaultIsolatedIff`. What the kernel's unmapping does to page tables and records, when a thread unmaps an area or ends, is stated with the step.
- ThreadTable.ThreadInfo.Exit: states which areas the kernel is asked to unmap; what the kernel then does is stated with the run's step.
- Archive.FillHeader: names fit 19 bytes, for which strcpy stays inside the field; so does Archive.CreateTar.
- Archive.Read512: sizes up to the bound of `SumFitsIff`, and reads and writes that are not short.
- Archive.RoundTripOverLonger: the leftover of the longer file is whole records of different names; what extraction does with a leftover that is cut off inside a record is not modelled.
- Archive.CreateTar: names fit 19 bytes, paths 299, sizes the bound of `SumFitsIff`; both passes over the directory see the same entries.
- Archive.Extract: archives cut off inside a record, or with sizes that the chunk loop cannot handle, are not modelled, nor are reads and writes that fail or come up short; the same holds for Archive.ExtractSingle and Archive.List.
- Scheduler.Contexts.SwitchTo: the saved registers, the stack pointer and the switch of the address space are not modelled.
- Scheduler.Contexts.HandleTimerTick: the alarm signal and the saved registers are not modelled.
- DebugPair.DoExit: closing the files and freeing the kernel stack are not modelled here.
- DebugPair.RunKeeps: the partners and parents of third contexts are third contexts, and neither of the pair calls sleep; the system call for sleeping is an event, not a method of its own.
- Decimal.Double: the buffer that receives the printed number is unbounded, and starting the next program always succeeds.
- Allocation always succeeds and yields new objects and zeroed frames, except for the node of a breakpoint, whose allocation may fail. Reference counters do not wrap; at most 112 descriptors exist.
- Stack words are independent 8-byte cells and registers other than rip, rsp and rbp are left out, also in the copy for the debugger, which holds these three and the correction of rdx.
- Persistent-pipe ends in the descriptor tables, seeking, sendfile, exec, inode lookup and permissions: the last two are parameters of opening a regular file.
- The kernel's list of mapped areas, of which only the record of thread-private ones is modelled.
- gthread.c: a thread's pid can be given out again before its record is joined, so that claims by pid need conditions that say little.
- root.c and square.c: the same check and chain as double.c with another operation; the cricket programs, which only add up scores.
- The derivation of the dump directory's name from the archive's path, and console messages.
