# Verified model of the w3m client and server

w3m adds multiplayer to a single-player game. Its client patches machine code inside the running game,
downloads its own updates, scans memory for byte signatures, exchanges player states with a game server and
hands them to the game's scripts through hand-managed arrays. This project models those algorithms in Dafny,
down to bytes, wrap-around and interleavings, and proves what they are for. All properties hold for all
inputs, all runs or all reachable states of the model.

## How it is laid out

- `Options`, `Words`, `ByteSlices`: optional values, 64-bit words, little-endian codecs, slices of byte sequences.
- `CodeMemory`, `NearMemory`, `Hook`, `ManyPatches`, `Patcher`: a byte memory with a small x86-64 interpreter (`JMP rel32`,
  `CALL rel32`, `JMP [rip+disp32]`, `MOV rax, imm64`, `JMP rax`, `NOP`, as the Intel Software Developer's
  Manual, Volume 2, defines them), the search for memory within reach, the patches, sequences of them, and
  the patcher as a class that changes memory in place.
- `StackFrame`: the register-saving and stack-aligning sequences, run on a machine with registers, flags,
  a stack and labels.
- `UpdateLedger`, `UpdaterUi`, `FileUpdater`: the progress ledger, the class that keeps it, and the pool of
  download workers as a machine of atomic steps.
- `Pattern`, `Simd`, `Signature`: pattern text, the SSE operations of the vectorised scan (section 4.1 of the
  Intel Software Developer's Manual, Volume 2B), and the scanner.
- `ByteBuffer`, `NetworkManager`, `GameStructs`, `Messages`: wire encoding, framing and dispatch, the structures
  on the wire, the messages built from them.
- `Server`, `ServerRuns`, `PlayerStates`, `Session`: the server's client table and its runs, the client's
  picture of the other players, and both together over a lossy channel that keeps order.
- `ScriptArray`, `Scheduler`, `Smbios`, `OneAtATime`: the script array over hand-managed memory, the task
  pipeline, the firmware table walker, the one-at-a-time hash.

Objects the source updates in place are classes whose methods state their whole new state through functions on
values; the lemmas are about those functions. Concurrency is modelled as state machines whose steps are the
atomic actions of the threads.

## What turned out to be different from what one would expect

- The search for memory within reach gives up at once, trying nothing, exactly when the address lies less than
  five bytes below the next multiple of the granularity (`NearMemory.SearchIsCompleteExactlyWhen`).
- Moving an `FF 25` hook keeps its meaning exactly when its displacement is between -6 and 0: then the
  quadword it jumps through moves with it (`Hook.IndirectMoveKeepsTargetExactlyWhen`). The patcher writes 0.
- When the null pointer is among the aligned addresses within reach of a site, which is so exactly for sites in the
  lowest and the highest 2 GiB, the search asks the system for a region at address 0, and the system may answer with
  any place; the check behind the request looks at the address asked for. `call` and `jump` then recurse again, one
  level deeper with each such answer. When they return, the site leads to its target all the same, through as many
  trampolines (`NearMemory.SearchStaysInReachExactlyWhen`, `Hook.SiteRecursesOnceExactlyWhen`,
  `Hook.RecursionRepeats`, `Hook.JumpReachesTarget`).
- Moving an `E9` hook throws exactly when its displacement is the most negative one and the requests for memory end
  without a trampoline; the failure leaves a `NOP` over the first byte (`Hook.MovedBranchKeepsTarget`).
- A kill report from a stranger makes an entry in the server's table, even when the guid behind its head is
  missing (`ServerRuns.KillChangesNothingExactlyWhen`, `ServerRuns.StrangersReport`).
- A player's name that fills all 64 bytes loses its last character on its way through the server
  (`GameStructs.NameSurvivesExactlyWhen`).
- A string or vector of 2^32 elements or more is written with a truncated count and read back cut short
  (`ByteBuffer.ReadUndoesWriteExactlyWhen`).
- An authenticated client can report any guid: the guid of its entry is the hash of its key exactly when its last
  valid state carried that hash (`ServerRuns.GuidIsKeyHashExactlyWhen`).
- When snapshots come out of order a smaller id overwrites a larger one, and the same state can be attached again.
  No state is attached twice exactly as long as no id is polled twice right after a smaller one, 0 standing before the
  first (`PlayerStates.NoStateTwiceExactlyWhen`, `PlayerStates.OutOfOrderAttachesTwice`). That the attached ids strictly
  increase asks for more: every polled id that exceeds the one polled before it must exceed all polled before
  (`PlayerStates.AttachedIdsIncreaseExactlyWhen`, `PlayerStates.RisingBelowTheTop`).
- A block shorter than the tail the scan keeps clear of makes the range wrap, and the scan reads outside the block
  (`Signature.RangeStaysInsideExactlyWhen`, `Signature.Scanner.Process`).

## Model

| member | source | states |
|---|---|---|
| NearMemory.FarMeansUnreachable | src/common/utils/hook.cpp:423-428 | an address is "relatively far" exactly when no 32-bit displacement reaches it modulo 2^64, and otherwise the truncated difference is one that does |
| NearMemory.NearestProbeIsReachable | src/common/utils/hook.cpp:24-51 | the neighbourhood search ends at an aligned address within reach that the system answers for, and every aligned reachable address before it was refused |
| NearMemory.SearchIsCompleteExactlyWhen | src/common/utils/hook.cpp:24-51 | a null result means every aligned reachable address was refused, for every system, exactly when base mod granularity <= granularity - 5; for any other base the search never finds anything |
| NearMemory.GrantIsReachableExactlyWhen | src/common/utils/hook.cpp:39-48 | what the search returns was offered by the system, and is out of reach exactly when it answers a request at the null pointer with a place out of reach |
| NearMemory.NullIsInReachExactlyWhen | src/common/utils/hook.cpp:423-428 | the null pointer is within reach exactly of the lowest 2 GiB less the branch, and of the highest 2 GiB |
| NearMemory.SearchStaysInReachExactlyWhen | src/common/utils/hook.cpp:24-51 | whatever the system answers, the search returns only reachable places, exactly when the null pointer is not within reach of the base or the search gives up at once |
| NearMemory.LowSitesAskForNull | src/common/utils/hook.cpp:29-48 | for a base in the lowest 2 GiB and a system that grants a user process nothing in the upper half, the null pointer is where the search ends |
| NearMemory.AllocateSomewhereNear | src/common/utils/hook.cpp:24-51 | the search loop, in wrapping 64-bit arithmetic, terminates with the system's answer to the first probe it is willing to answer, the null pointer included |
| NearMemory.BumpIsFresh | src/common/utils/hook.cpp:102-122 | the bump allocator hands out bytes of its region that were not handed out before |
| NearMemory.GetMemoryNearIsFresh | src/common/utils/hook.cpp:130-150 | a block lies inside one pool region, apart from everything issued before; the first region that can serve the request does, and the system is asked only when none can; the request is refused exactly when neither has anything near, and out of reach of its requester exactly when the pool had nothing and the search went astray at the null pointer; the pools stay valid |
| NearMemory.RequestServed | src/common/utils/hook.cpp:135-148 | when a region with room has its next free byte within reach of some 32-bit displacement, the first such region gives exactly those bytes, only its offset grows and no region is added; otherwise the region the system hands out joins the pool, or nothing happens |
| NearMemory.ServedBlocksAreDisjoint | src/common/utils/hook.cpp:130-150 | over any sequence of requests all blocks returned are pairwise disjoint, each within one region; a request fails only when the search found nothing |
| NearMemory.ServedWithinReachExactlyWhen | src/common/utils/hook.cpp:130-150 | over any sequence of requests a block is within reach of its requester exactly when its request did not go astray, which it cannot unless the null pointer is within reach of the requester |
| Hook.ReserveIsFresh | src/common/utils/hook.cpp:130-150 | reserving near a site takes from the first pool region that can serve it, and commits one region only when none can; it leaves all mapped bytes alone, and yields a block apart from everything patchable; it is refused exactly when neither pool nor system has anything near, and out of reach exactly when the request went astray |
| Hook.BranchDecodes | src/common/utils/hook.cpp:445-451 | the five bytes emitted for a call or jump decode to that branch with the wanted target whenever the target is not far |
| Hook.FarSafeDecodes | src/common/utils/hook.cpp:486-493 | the fourteen bytes of the safe far jump decode to an indirect jump through the quadword behind it, which holds the target |
| Hook.FarDecodes | src/common/utils/hook.cpp:466-501 | the twelve bytes of the unsafe far jump decode to a load of the target into rax and a jump through it |
| Hook.RedirectInstalls | src/common/utils/hook.cpp:430-511 | whatever the system answers at each level of the recursion: if call or jump returns, a branch at the site leads to the target through the trampolines taken, and only the site and those changed; it throws exactly when the target is far and the requests for memory end without a trampoline, and then no mapped byte is different |
| Hook.NearJumpReachesTarget | src/common/utils/hook.cpp:464-511 | a near jump that returns transfers control to the target with all registers and memory untouched, in one instruction more than there are trampolines on the way; exactly when it throws |
| Hook.JumpReachesTarget | src/common/utils/hook.cpp:464-511 | for every address pair, every choice of flags, every pool and all answers of the system: if jump returns, running the site reaches the target, and only the site and fresh trampolines changed; exactly when it throws |
| Hook.CallReachesTarget | src/common/utils/hook.cpp:430-452 | if call returns, running the site calls the target with return address pointer + 5, for every stack, and only the site and fresh trampolines changed; exactly when it throws |
| Hook.PoolServesPatch | src/common/utils/hook.cpp:135-148 | whatever the system, a patch in range takes nothing from the pool, and a far patch whose site some region can serve never throws: its one trampoline is the next free bytes of the first such region, no memory is committed and no region added |
| Hook.TrampolinesComeFromPool | src/common/utils/hook.cpp:102-150 | whatever the system answers, and whether the patch returns or throws, the pool has handed out fourteen bytes for each trampoline and nothing else, and each trampoline lies in what was handed out |
| Hook.RecursesOnceExactlyWhen | src/common/utils/hook.cpp:432-441 | call and jump recurse at most once, through at most one trampoline, exactly when the target is in range or the request for memory did not go astray; then they throw exactly when neither pool nor system has anything near |
| Hook.SiteRecursesOnceExactlyWhen | src/common/utils/hook.cpp:470-480 | whatever the process and the system, a patch at a site recurses at most once, exactly when the null pointer is not within reach of the site or the search gives up at once |
| Hook.RecursionRepeats | src/common/utils/hook.cpp:470-480 | as long as the system answers the null pointer with places out of reach, every answer takes the recursion one level deeper |
| Hook.LowSiteRecurses | src/common/utils/hook.cpp:470-480 | at any site within reach of the null pointer, a process and systems that send a patch to any depth there is room for |
| ManyPatches.LastPatchDecides | src/common/utils/hook.cpp:376-604 | over any sequence of jumps, calls, overwritten bytes and moved hooks, some of which may throw, at sites that may be patched again and again: every jump, call and moved hook whose site no later patch touched leads to its target when all are done |
| ManyPatches.PatchesLeaveEachOtherAlone | src/common/utils/hook.cpp:376-604 | in particular, over any sequence of patches at sites apart from each other, every jump, call and moved hook that was installed still leads to its target when all are done |
| ManyPatches.PatchLeavesStanding | src/common/utils/hook.cpp:392-401 | a patch leaves every branch installed before it standing, trampolines and the NOP in front of a moved hook included, when its site is clear of that branch |
| Hook.ExtractUndoesInject | src/common/utils/hook.cpp:540-548 | injection succeeds exactly when some 32-bit operand can refer to the address, extracting from the injected operand gives the address back, and no byte but the four of the operand is different |
| Hook.FollowBranchIsTarget | src/common/utils/hook.cpp:595-604 | follow_branch succeeds exactly on relative branches, and returns where executing the branch goes |
| Hook.MovedBranchKeepsTarget | src/common/utils/hook.cpp:560-588 | moving an E9 hook by one byte keeps where the hooked address leads, also when the shifted branch needs trampolines; it throws exactly for the lowest displacement when the requests for memory end without one, and then only the NOP is different among the mapped bytes |
| Hook.MoveThrowsExactlyWhen | src/common/utils/hook.cpp:560-588 | when its request does not go astray, the move throws exactly for the lowest displacement when neither pool nor system has anything near, leaving nothing but the NOP |
| Hook.UnMoveRestores | src/common/utils/hook.cpp:349-355 | writing the returned bytes back restores every byte, but for trampolines the move may have taken |
| Hook.OtherHooksMoved | src/common/utils/hook.cpp:574-587 | the FF 25 branch of move_hook copies the fourteen bytes one up, byte for byte, puts a NOP in front, returns the fifteen overwritten bytes and changes nothing else; in front of anything but a hook it throws and changes nothing |
| Hook.IndirectMoveKeepsTargetExactlyWhen | src/common/utils/hook.cpp:574-581 | moving an FF 25 hook keeps its target, in every process and at every site, if and only if its displacement is between -6 and 0 |
| Hook.StrayingHook | src/common/utils/hook.cpp:574-581 | for any other displacement, a memory in which the moved hook goes astray |
| Patcher.CodePatcher.MemoryNear | src/common/utils/hook.cpp:130-150 | the pool search in place: the first pool region in range with room, and only when there is none the region the system hands out, if it does |
| Patcher.CodePatcher.Jump | src/common/utils/hook.cpp:464-511 | the recursive method changes memory and pools as the jump function does, exceptions and the state they leave included |
| Patcher.CodePatcher.Call | src/common/utils/hook.cpp:430-452 | the same for call |
| Patcher.CodePatcher.Inject | src/common/utils/hook.cpp:540-548 | the operand refers to the address afterwards and nothing else is different; a false result is the exception, with nothing changed |
| Patcher.CodePatcher.MoveHook | src/common/utils/hook.cpp:560-588 | the same for move_hook, with the bytes it returns and the state it leaves when it throws |
| Patcher.CodePatcher.UnMove | src/common/utils/hook.cpp:349-355 | the remembered bytes are written back, if there are any |
| StackFrame.PushesRun | src/common/utils/hook.cpp:174-197 | a list of pushes stores the registers below the stack pointer, first one highest, and changes nothing else |
| StackFrame.PopsRun | src/common/utils/hook.cpp:199-222 | popping in reverse order restores every pushed register and the stack pointer |
| StackFrame.RestoreRuns | src/common/utils/hook.cpp:199-222 | popaq gives back all sixteen registers and the flags that pushaq saved, whatever happened to them in between |
| StackFrame.PrepareRuns | src/common/utils/hook.cpp:224-248 | for every stack pointer that is a multiple of eight the prepared stack is 16-byte aligned, with the old stack pointer stored behind the callee's home space |
| StackFrame.RestoreStackRuns | src/common/utils/hook.cpp:250-254 | the stored stack pointer is found again although the callee overwrote its home space |
| StackFrame.InterceptReachesCall | src/common/utils/hook.hpp:73-79 | pushaq and the preparation reach the call with an aligned stack and everything saved, and write nothing but quadwords below the interrupted rsp |
| StackFrame.InterceptKeepsMachine | src/common/utils/hook.hpp:73-79 | for every machine with rsp a multiple of eight and every callee that keeps to the calling convention, pushaq; call_aligned; popaq enters the call 16-byte aligned and ends with every register, rsp and the flags as they were; the callee finds all memory as it was but for the quadwords below the interrupted rsp, and the memory it leaves is the memory at the end |
| StackFrame.Assembler.Pushaq | src/common/utils/hook.cpp:174-197 | the assembler appends the flag push, sixteen register pushes and the padding that SaveRuns analyses |
| StackFrame.Assembler.Popaq | src/common/utils/hook.cpp:199-222 | the assembler appends the undoing sequence that RestoreRuns analyses |
| StackFrame.Assembler.RestoreStackAfterCall | src/common/utils/hook.cpp:250-254 | the assembler appends the restoring sequence that RestoreStackRuns analyses |
| StackFrame.SaveRuns | src/common/utils/hook.cpp:174-197 | pushaq leaves flags, all registers and one padding cell below the interrupted stack pointer, and changes no other register |
| StackFrame.FrameLayout | src/common/utils/hook.cpp:174-197 | where pushaq leaves the flags and each of the sixteen registers, the stack pointer as it was when its turn came |
| StackFrame.Assembler.PrepareStackForCall | src/common/utils/hook.cpp:224-248 | the assembler emits the sequence whose runs are analysed, with its labels bound where the jumps expect them |
| StackFrame.Assembler.AssembleIntercept | src/common/utils/hook.cpp:174-254 | pushaq, call_aligned and popaq together emit the intercepting code |
| UpdateLedger.FlightSumWithout | src/client/updater/updater_ui.cpp:146-149 | the sum over the files in flight does not depend on the order in which they are visited |
| UpdaterUi.Ui.GetDownloadedSize | src/client/updater/updater_ui.cpp:136-152 | finished files in full plus files in flight as far as they got, modulo 2^64, in any order of the map |
| UpdaterUi.Ui.GetTotalSize | src/client/updater/updater_ui.cpp:123-134 | the sizes of all files of the update, modulo 2^64 |
| UpdaterUi.Ui.UpdateFiles | src/client/updater/updater_ui.cpp:12-28 | the ledger starts anew with the files of the update, or the cancellation is thrown with nothing changed |
| UpdaterUi.Ui.GetRelevantFileName | src/client/updater/updater_ui.cpp:166-189 | a file in flight of the least size, otherwise the last one finished |
| UpdaterUi.Ui.FileProgress | src/client/updater/updater_ui.cpp:80-88 | the file's entry holds the reported bytes and its size, and the bar follows, or the cancellation is thrown with nothing changed |
| UpdaterUi.Ui.BeginFile | src/client/updater/updater_ui.cpp:51-59 | the file enters the ledger with no progress, or the cancellation is thrown with nothing changed |
| UpdaterUi.Ui.EndFile | src/client/updater/updater_ui.cpp:61-78 | the file moves from in flight to finished; whether the entry was there |
| UpdaterUi.Ui.DoneUpdate | src/client/updater/updater_ui.cpp:30-49 | the bar ends full and the ledger empty |
| FileUpdater.ThreadCount | src/client/updater/file_updater.cpp:103-108 | the largest number that is neither above the number of files nor above two thirds of the cores, but at least one |
| FileUpdater.StepKeepsPoolInv | src/client/updater/file_updater.cpp:221-245 | every atomic step of every worker keeps the pool invariant: claims handed out once, nothing dropped without a recorded failure, late claims and the index bounded |
| FileUpdater.PoolIsSafe | src/client/updater/file_updater.cpp:208-263 | in every interleaving no file is held by two workers or completed twice, the index stays below files plus workers, a worker claims at most one file after a failure is recorded; when the update has ended, done_update ran if and only if no exception is stored, and then all files were completed exactly once, otherwise the stored exception is rethrown; when all workers have left, the join can be made and ends it so |
| FileUpdater.JoinDecides | src/client/updater/file_updater.cpp:246-262 | helper, by cases of the join: once every worker has left, the update ends with the recorded failure or with done_update |
| FileUpdater.LastFailureIsRethrown | src/client/updater/file_updater.cpp:221-260 | in every interleaving the slot holds the failure stored last, of a file whose begin was cancelled or download aborted; no failed file is completed; an update that has ended finished exactly when no file failed, and otherwise rethrew that failure |
| FileUpdater.NeverStuck | src/client/updater/file_updater.cpp:208-263 | in every state any interleaving leads to, some step other than a progress report can be made as long as the update is busy |
| FileUpdater.RunsEnd | src/client/updater/file_updater.cpp:208-263 | every run has, besides its progress reports, at most five steps for each file, three for each worker and one for the join |
| FileUpdater.LedgerIsSafe | src/client/updater/updater_ui.cpp:30-88 | in every run of the pool with distinct names: finished files and files in flight are disjoint parts of the update, each file in flight stands with its size and the bytes last reported for it, the downloaded size is the finished sizes plus those reports, the failed erase is unreachable; with honest reports the downloaded size is at most the total; when done_update is due size and count equal the totals, and after it the ledger is empty |
| Pattern.ParseThrowsExactlyWhen | src/common/utils/signature.cpp:19-72 | loading throws exactly on a foreign character or an odd number of hex digits |
| Pattern.PrintHex | src/common/utils/string.cpp:139-154 | the printing loop yields the hex text with separators between the bytes |
| Pattern.HexByteDigits | src/common/utils/string.cpp:139-154 | a byte is printed as its two capital hexadecimal digits, the higher one first |
| Pattern.HexValueExactlyWhen | src/common/utils/signature.cpp:28-34 | a character is read as a digit exactly when it is a hexadecimal one, large or small, and with its value |
| Pattern.ParseIgnoresCase | src/common/utils/signature.cpp:28-34 | a pattern means the same with its small hexadecimal digits as capitals |
| Pattern.ParseUndoesRender | src/common/utils/signature.cpp:11-72 | bytes in hex with wildcards in between, and blanks wherever one likes before, between and behind them, read back to the same tokens without trailing wildcards |
| Pattern.ParseUndoesDump | src/common/utils/string.cpp:139-154 | dumping bytes with any blank separator and loading the text gives the bytes back |
| Pattern.TrimKeepsMatches | src/common/utils/signature.cpp:53-57 | dropping trailing wildcards changes no match whose whole window lies in memory |
| Pattern.MatchesAreAll | src/common/utils/signature.cpp:81-105 | the specified scan lists exactly the matching addresses of a range, ascending |
| Pattern.MatchesConcat | src/common/utils/signature.cpp:160-169 | scanning two adjacent ranges is scanning their union |
| Simd.CompareEachBit | src/common/utils/signature.cpp:123 | the packed equal-each mask has a bit set exactly where both bytes are valid and equal or both are invalid |
| Simd.CoverTest | src/common/utils/signature.cpp:125-128 | the and, xor and all-zeros test accepts exactly when every wanted bit was found |
| Signature.GatherIsFlatten | src/common/utils/signature.cpp:170-181 | in whatever order the threads get the lock, the gathered addresses are the same multiset |
| Signature.SortSorts | src/common/utils/signature.cpp:191 | sorting yields a sorted list of the same elements |
| Signature.ChunksAreRange | src/common/utils/signature.cpp:160-169 | for every range and core count the chunks, in order, are the whole range |
| Signature.ParallelIsSerial | src/common/utils/signature.cpp:154-193 | sorting what the threads gathered gives the serial result, for every core count and every order of lock acquisition |
| Signature.Scanner.LoadPattern | src/common/utils/signature.cpp:11-72 | mask and pattern stand for the parsed tokens, padded to sixteen bytes for the vectorised scan, or the exception is thrown |
| Signature.Scanner.ProcessRangeLinear | src/common/utils/signature.cpp:81-105 | the plain scan finds exactly the matches of a range whose windows lie in the block, and reads outside the block when the range itself does not |
| Signature.Scanner.WindowTest | src/common/utils/signature.cpp:119-132 | for every mask of at most sixteen entries the register test accepts a window exactly when it matches |
| Signature.Scanner.ProcessRangeVectorized | src/common/utils/signature.cpp:107-136 | the SSE scan returns the same list as the plain scan's specification, and reads outside the block when the range does not lie in it |
| Signature.Scanner.ProcessSerial | src/common/utils/signature.cpp:148-152 | on every block: the matches of the whole range, or a read outside the block exactly when the block is shorter than the kept-clear tail |
| Signature.Scanner.ProcessParallel | src/common/utils/signature.cpp:154-193 | the parallel route gives the same on every block, whatever the number of cores and the order of the lock |
| Signature.Scanner.Process | src/common/utils/signature.cpp:138-146 | either way, on every block: exactly the ascending addresses, at offsets below length minus the kept-clear tail, where every byte the pattern asks for stands, if and only if the block is not shorter than that tail, which is 16 for patterns of up to sixteen tokens with SSE4.2 and the pattern's length otherwise |
| Signature.RangeStaysInsideExactlyWhen | src/common/utils/signature.cpp:140-160 | all windows of the 64-bit range lie inside the block exactly when the block is not shorter than the kept-clear tail; otherwise the range wraps to offsets wholly outside |
| Signature.FifteenBytesWrap | src/common/utils/signature.cpp:150-151 | fifteen bytes scanned with SSE: the range wraps to 2^64 - 1 |
| ByteBuffer.ReadUndoesWriteExactlyWhen | src/common/utils/byte_buffer.hpp:124-176 | anywhere in a buffer, reading a typed value that was written gives it back and stops right behind it, exactly when its count fits 32 bits |
| ByteBuffer.ReadsUndoWrites | src/common/utils/byte_buffer.hpp:124-176 | any sequence of typed writes reads back to the same values and consumes exactly their bytes |
| ByteBuffer.WritesUndoReads | src/common/utils/byte_buffer.hpp:32-97 | on arbitrary input, values that were read have the shapes asked for, and writing them gives just the bytes consumed |
| ByteBuffer.TruncatedMessageThrows | src/common/utils/byte_buffer.hpp:32-41 | a message cut short anywhere is never read as a whole: the matching reads throw |
| ByteBuffer.ReadFields | src/common/utils/byte_buffer.hpp:32-97 | on arbitrary input, whether reads succeed or throw, the offset only grows and never exceeds the buffer size |
| ByteBuffer.ReadThrowsExactlyWhen | src/common/utils/byte_buffer.hpp:32-97 | for each kind of value: exactly when its read throws, and that the offset then stays, or has moved behind the count |
| ByteBuffer.TextOnTheWire | src/common/utils/byte_buffer.hpp:134-138 | a string byte by byte: its length modulo 2^32 in four bytes, least significant first, then its characters |
| ByteBuffer.ItemsOnTheWire | src/common/utils/byte_buffer.hpp:171-176 | a vector byte by byte: its length likewise, then the elements behind one another |
| Words.LittleEndianDigit | src/common/utils/byte_buffer.hpp:156-161 | byte k of a stored number is its digit k to base 256, for every number and width |
| ByteBuffer.Deserializer.Read | src/common/utils/byte_buffer.hpp:32-41 | the 64-bit bounds check never wraps; a failed read leaves the offset where it was |
| ByteBuffer.Deserializer.ReadString | src/common/utils/byte_buffer.hpp:83-97 | reads a counted string, or throws with the count consumed |
| ByteBuffer.Deserializer.ReadVector | src/common/utils/byte_buffer.hpp:64-81 | reads a counted vector; the product of count and element size does not wrap |
| ByteBuffer.Serializer.WriteString | src/common/utils/byte_buffer.hpp:134-143 | appends a counted string |
| ByteBuffer.Serializer.WriteVector | src/common/utils/byte_buffer.hpp:171-176 | appends a counted vector |
| ByteBuffer.Serializer.WriteBuffer | src/common/utils/byte_buffer.hpp:150-154 | another buffer is appended, which may be the buffer itself |
| ByteBuffer.Serializer.MoveBuffer | src/common/utils/byte_buffer.hpp:183-186 | the contents are handed over and nothing is left behind |
| ByteBuffer.Deserializer.RemainingData | src/common/utils/byte_buffer.hpp:99-107 | reading the rest never throws and leaves the offset at the end |
| NetworkManager.SentIsReceivedExactlyWhen | src/common/network/manager.cpp:69-97 | a framed message arrives under the lower-cased command with identical payload exactly when the command is non-empty and free of bytes 32 and 10, and the separator is one of them |
| NetworkManager.ReceivedExactlyWhenFramed | src/common/network/manager.cpp:69-97 | a packet yields a message exactly when it is the frame of such a command in any capitalisation |
| NetworkManager.ValuesArrive | src/common/network/manager.cpp:156-164 | typed values sent as one message arrive as the same values with nothing left over |
| NetworkManager.RegisteredThenSent | src/common/network/manager.cpp:45-67 | a registration takes over every message of its command, whatever the case, and touches no message of another |
| NetworkManager.DispatchedExactlyWhen | src/common/network/manager.cpp:45-97 | a handler is called with some data exactly when the packet frames that data under a command it is registered for, in any case; every other packet calls nobody |
| NetworkManager.LowersCapitalsOnly | src/common/utils/string.cpp:74-79 | the twenty-six ASCII capitals are lowered, each to its own letter, and no other byte is changed |
| NetworkManager.Lowered | src/common/utils/string.cpp:74-79 | the in-place loop lowers exactly the ASCII capitals |
| NetworkManager.Manager.On | src/common/network/manager.cpp:151-154 | registers the handler under the lower-cased command, all keys staying lower-cased |
| NetworkManager.Manager.Send | src/common/network/manager.cpp:156-164 | the packet is four bytes FF, command, separator and data |
| NetworkManager.Manager.HandleData | src/common/network/manager.cpp:69-97 | calls the handler the packet's message is for, or none |
| GameStructs.PlayerRoundTrip | src/common/game/structs.hpp:15-30 | the 176 bytes of a player decode to the player |
| GameStructs.PlayerRoundTripBack | src/common/game/structs.hpp:15-30 | any 176 bytes are the encoding of the player they decode to |
| GameStructs.PlayerOnTheWire | src/common/game/structs.hpp:15-30 | each of the 176 bytes: guid, name, body and state id in this order, numbers least significant byte first |
| GameStructs.NamePadded | src/common/utils/string.cpp:259-281 | each byte of a stored name: the text up to its first NUL as far as 63 bytes go, then zeros |
| GameStructs.NameSurvivesExactlyWhen | src/common/utils/string.cpp:259-281 | a name survives being stored and sent on exactly when it has a terminating zero in its field; otherwise its last character is cut |
| Messages.StateArrives | src/client/module/scripting_experiments.cpp:381-384 | the state message the client writes is the one the server reads |
| Messages.StatesArrive | src/server/server.cpp:162-164 | a snapshot of fewer than 2^32 players arrives at the client as it was sent |
| Messages.AuthResponseArrives | src/client/module/scripting_experiments.cpp:454-459 | key and signature of an answer arrive at the server |
| Messages.AuthRequestArrives | src/server/server.cpp:19-23 | the challenge arrives at the client |
| Messages.GuidArrives | src/server/server.cpp:28-30 | the guid of a kill report or notification arrives |
| Messages.FixedMessagesOnTheWire | src/server/server.cpp:26-33 | protocol number 6 in four bytes, then the player, or the guid byte by byte |
| Messages.HandshakeOnTheWire | src/client/module/scripting_experiments.cpp:454-459 | protocol number, then the challenge, or the public key with the signature behind it, each with its length |
| Messages.SnapshotOnTheWire | src/server/server.cpp:162-164 | protocol number, number of players, and 176 bytes for each |
| Messages.SnapshotPlayerOnTheWire | src/server/server.cpp:162-164 | player i of a snapshot stands at 8 + 176 * i |
| Server.Server.HandlePlayerState | src/server/server.cpp:116-139 | exactly how a state packet changes the table, and that an unauthenticated sender is sent the challenge its entry now holds |
| Server.Server.SendAuthenticationRequest | src/server/server.cpp:11-24 | an entry without a nonce gets the new challenge, any other keeps its own, and that nonce is sent |
| Server.Server.HandleAuthenticationResponse | src/server/server.cpp:35-86 | exactly how an answer changes the table: key stored only when nonce, hash and signature are right |
| Server.Server.HandlePlayerKill | src/server/server.cpp:88-114 | at most one notification, sent if and only if the reporter is authenticated and an authenticated player has the guid, to the first such player the walk meets, naming the reporter |
| Server.Server.SendState | src/server/server.cpp:141-173 | the encoded snapshot of the authenticated players is sent to each of them |
| Server.Server.RunFrame | src/server/server.cpp:210-231 | exactly the entries silent for more than twenty seconds are erased while walking the table, then the rest is broadcast |
| ServerRuns.UndecodableChangesNothing | src/server/server.cpp:116-126 | helper, by cases of the handlers: a packet whose payload its handler cannot decode leaves the table unchanged |
| ServerRuns.PresentExactlyWhen | src/server/server.cpp:48-126 | helper, by cases of the events: who is in the table afterwards: whoever was there and is not erased, and the senders of a state that decodes, a kill report whose head does, an answer whose key can be imported |
| ServerRuns.KillChangesNothingExactlyWhen | src/server/server.cpp:88-102 | a kill report leaves the table alone exactly when its head does not decode or its sender has an entry |
| ServerRuns.StrangersReport | src/server/server.cpp:98 | a four-byte kill report from a stranger makes a new entry |
| ServerRuns.ErasedExactlyWhen | src/server/server.cpp:215-228 | helper, by cases of the events: an entry goes exactly in a frame that finds it silent for more than twenty seconds |
| ServerRuns.EntryStep | src/server/server.cpp:35-139 | helper, by cases of the handlers: what one event does to counter, guid, nonce, key and last packet of an entry |
| ServerRuns.EntryShowsStep | src/server/server.cpp:128-132 | helper, by cases of the handlers: what one event does to guid, name, state and console flag of an entry |
| ServerRuns.StepKeepsIdentity | src/server/server.cpp:35-139 | as long as an entry lives, a set nonce never changes, authentication never reverts, and a key is stored only when it hashed to the guid of that moment and its signature over the entry's own nonce verified |
| ServerRuns.CountersCount | src/server/server.cpp:128-138 | in every run an entry's state_id is the number of its valid state packets since it was made, modulo 2^64; a nonce needs at least one, authentication needs a nonce |
| ServerRuns.NonceWasIssued | src/server/server.cpp:11-24 | every nonce in the table was drawn for its own entry within the entry's life |
| ServerRuns.AuthenticationWasProved | src/server/server.cpp:51-85 | whoever is authenticated proved the stored key within the life of the entry, over the nonce it has |
| ServerRuns.EntryShowsLastReport | src/server/server.cpp:128-137 | in every run an entry shows the guid, name and state of its last valid state packet, whether or not it is authenticated, and nothing before the first |
| ServerRuns.GuidIsKeyHashExactlyWhen | src/server/server.cpp:128-133 | in every run an entry plays under the guid it reported last; the guid of an authenticated entry is its key's hash exactly when its last valid state carried that hash |
| ServerRuns.AnyGuidCanBeReported | src/server/server.cpp:130 | any guid can be reported after authentication, and the entry stays authenticated under it |
| ServerRuns.NoncesDiffer | src/server/server.cpp:13-17 | with fresh challenges no two entries ever share a nonce |
| ServerRuns.OldNonceIsDead | src/server/server.cpp:13-17 | with fresh challenges an entry made anew never gets its old nonce back |
| ServerRuns.HandshakeCompletes | src/client/module/scripting_experiments.cpp:434-460 | a client holding the key its guid is the hash of reads the challenge, and signing it authenticates the client |
| ServerRuns.SilenceCountsFromLastHeard | src/server/server.cpp:82-83 | in every run the time a frame measures an entry's silence from is that of its last valid state or successful answer |
| ServerRuns.StateIsBroadcast | src/server/server.cpp:128-173 | the state an authenticated client sends is in the next snapshot, under its guid, with its name as far as it fits, its body untouched and the next counter value, and arrives so |
| ServerRuns.SnapshotTellsLastReports | src/server/server.cpp:128-160 | in every run a frame tells exactly of the authenticated players heard from in time, each with guid, name and body of its last valid state packet, sent before or after the authentication, and the number of such packets |
| ServerRuns.SnapshotIsExact | src/server/server.cpp:146-160 | after a frame the snapshot says exactly the authenticated players heard from in time |
| ServerRuns.BroadcastReaches | src/server/server.cpp:166-172 | exactly the authenticated players are told, each once |
| PlayerStates.Players.ReceivePlayerStates | src/client/module/scripting_experiments.cpp:387-432 | a readable snapshot from the master server replaces the picture and prunes the known ids; anything else changes nothing |
| PlayerStates.OthersJoin | src/client/module/scripting_experiments.cpp:408-417 | receiving keeps the order of the players: two snapshots one behind the other are received one behind the other |
| PlayerStates.Players.GetPlayerStates | src/client/module/scripting_experiments.cpp:284-309 | one script player per entry, in order, with its guid, its name up to the first NUL, and its state exactly when its id exceeds the one polled last for the guid, in this poll or before; the ids updated in order |
| PlayerStates.ReceiveAuthRequest | src/client/module/scripting_experiments.cpp:434-460 | a readable challenge from the master server, and nothing else, is answered with the public key and the signature of the challenge |
| PlayerStates.StorePlayerState | src/client/module/scripting_experiments.cpp:363-385 | what is sent about the own player is what the server will read, with state id 0 |
| PlayerStates.FreshExactlyWhen | src/client/module/scripting_experiments.cpp:299-303 | with distinct guids a state is attached exactly when its id exceeds the one last polled for its guid (0 at first), and that id is then its own |
| PlayerStates.AlwaysTidy | src/client/module/scripting_experiments.cpp:408-430 | whatever arrives, the keys of the freshness map are guids in the picture and the own guid is not in it |
| PlayerStates.FreshStatesOnly | src/client/module/scripting_experiments.cpp:284-309 | with distinct guids and ids that do not go back, attached ids strictly increase while the player stays, so that none comes twice, and a polled state has been attached, the first included |
| PlayerStates.ReturnedAreAttached | src/client/module/scripting_experiments.cpp:284-309 | over any sequence of snapshots and polls, the bodies polls return for a guid are exactly those of the states whose ids count as attached, in order, and each was delivered under that guid |
| PlayerStates.AttachedAreRises | src/client/module/scripting_experiments.cpp:296-305 | with distinct guids, what is attached for a player in the picture is exactly what exceeds the previous poll |
| PlayerStates.RisesIncreaseExactlyWhen | src/client/module/scripting_experiments.cpp:301-303 | the rises of a list of ids increase exactly when each of them exceeds all ids before it |
| PlayerStates.AttachedIdsIncreaseExactlyWhen | src/client/module/scripting_experiments.cpp:296-305 | with distinct guids and any ids at all: attached ids strictly increase exactly when every polled id that exceeds the one polled before it exceeds all polled before |
| PlayerStates.RisesTwiceExactlyWhen | src/client/module/scripting_experiments.cpp:301-303 | no rise of a list of ids comes twice exactly when no two positions that exceed their predecessors (0 at first) hold the same id |
| PlayerStates.NoStateTwiceExactlyWhen | src/client/module/scripting_experiments.cpp:296-305 | with distinct guids and any ids at all: no state of a player is attached twice exactly when no id is polled twice right after a smaller one |
| PlayerStates.RisingBelowTheTop | src/client/module/scripting_experiments.cpp:296-305 | a witness that the two conditions differ: top, low, mid attaches no state twice although the attached ids fall |
| PlayerStates.OutOfOrderAttachesTwice | src/client/module/scripting_experiments.cpp:296-305 | a witness: when a smaller id comes in between, the same state is attached twice, its id being polled twice right after a smaller one |
| Session.CounterGrows | src/server/server.cpp:128-133 | within one lifetime an entry's counter never goes back, and an entry with a nonce has reported |
| Session.SnapshotOfHolder | src/server/server.cpp:141-160 | a snapshot tells of a player exactly when its holder is authenticated, once, with the holder's counter |
| Session.SessionAttachesFreshStates | src/client/module/scripting_experiments.cpp:284-309 | server, lossy in-order channel and client together, in every interleaving within one entry lifetime: a first-seen state is attached, later attached ids strictly increase, none comes twice, what polls return are the bodies of just these states, the picture stays tidy |
| Session.StateReachesScript | src/client/module/scripting_experiments.cpp:284-309 | after any such interleaving that has left nothing on the way: an authenticated player's report, a frame in time, its delivery and a poll make the other client's poll return just that state under the player's guid and name, once |
| ScriptArray.Array.PopBack | src/client/module/scripting.hpp:206-220 | the last element is returned and destroyed, or the exception is thrown on an empty array |
| ScriptArray.Array.At | src/client/module/scripting.hpp:171-179 | the element at an index below the length, the exception otherwise |
| ScriptArray.Array.Clear | src/client/module/scripting.hpp:262-273 | every object is destroyed and the block freed, once |
| ScriptArray.Array.Resize | src/client/module/scripting.hpp:275-305 | the array becomes the resized sequence; "Too many items" is thrown exactly when it grows to 2^32 elements or more, and leaves everything unchanged |
| ScriptArray.Array.PushBack | src/client/module/scripting.hpp:201-204 | the element is appended, or the exception leaves everything unchanged |
| ScriptArray.Array.MoveToVector | src/client/module/scripting.hpp:247-260 | the elements are returned in order and the array is left without a block |
| ScriptArray.Array.AssignMove | src/client/module/scripting.hpp:114-127 | the block changes hands, the old one is freed; moving an array into itself does nothing |
| ScriptArray.Array.AssignCopy | src/client/module/scripting.hpp:104-112 | both arrays hold the elements, in blocks of their own |
| ScriptArray.FromData | src/client/module/scripting.hpp:67-90 | a new array with a block of its own holds copies of the data, or "Too many items" is thrown before anything is allocated |
| ScriptArray.OperationLeads | src/client/module/scripting.hpp:201-305 | every operation of the class on one array is a change of the program's arrays in the sense of the results below |
| ScriptArray.MoveLeads | src/client/module/scripting.hpp:114-127 | so is move assignment, between two arrays |
| ScriptArray.DeclarationLeads | src/client/module/scripting.hpp:59 | so is the declaration of an empty array |
| ScriptArray.FromDataLeads | src/client/module/scripting.hpp:67-90 | construction from data is a declaration and an operation |
| ScriptArray.DestructionLeads | src/client/module/scripting.hpp:141-144 | so is the destructor |
| ScriptArray.ChangeKeepsOneOwner | src/client/module/scripting.hpp:104-144 | declaring, operating on, moving and destroying arrays keeps every block with one owner and its objects just below that owner's length |
| ScriptArray.OthersUntouched | src/client/module/scripting.hpp:104-144 | an operation leaves every other array and all its elements alone |
| ScriptArray.ProgramHasOneOwners | src/client/module/scripting.hpp:59-144 | at every moment of every program every block has exactly one owner |
| ScriptArray.NothingLeaks | src/client/module/scripting.hpp:141-144 | when all arrays of a program are gone, all memory was given back |
| Scheduler.StepKeepsSane | src/client/module/scheduler.cpp:30-61 | every step of adding, beginning, looking, returning and finishing keeps the pipeline sane |
| Scheduler.EveryRunIsSane | src/client/module/scheduler.cpp:22-74 | in every interleaving every task added is pending, active or ended, once; survivors keep their order; no handler ran before its interval had passed, nor a once task twice |
| Scheduler.OnceMeansOnce | src/client/module/scheduler.cpp:107-115 | in such a history a task that is to run once has been called at most once |
| Scheduler.LogTellsSteps | src/client/module/scheduler.cpp:85-95 | the log of every run lists the additions as they were made, with their intervals and times, and no call later than the time read last |
| Scheduler.EndsWhenAnswered | src/client/module/scheduler.cpp:46-54 | tasks end exactly when their handlers answer that they are done, in that order |
| Scheduler.TasksEndAsTheyShould | src/client/module/scheduler.cpp:97-115 | in every run no task ends without having been called, a looping task never ends, and a once task has ended as soon as its call has returned |
| Scheduler.PassIsFair | src/client/module/scheduler.cpp:30-61 | a pass calls each task at most once, in order, none added while it ran, and every survivor that was due when it began |
| Scheduler.TaskPipeline.Schedule | src/client/module/scheduler.cpp:85-95 | the task is added behind all others, with the time of scheduling as its last call |
| Scheduler.TaskPipeline.MergeCallbacks | src/client/module/scheduler.cpp:65-73 | new tasks go behind the active ones and nothing is left of them in the other list |
| Scheduler.TaskPipeline.Execute | src/client/module/scheduler.cpp:30-61 | against any behaviour of handlers and other threads, the pass is a run of the steps from one idle moment to the next |
| Smbios.ParseUuid | src/client/utils/smbios.cpp:44-58 | all zeros and all ones give nothing, anything else its first three fields turned big-endian |
| Smbios.SwapReverses | src/client/utils/smbios.cpp:52 | swapping a 32-bit number and storing it reverses the bytes it was loaded from |
| Smbios.BigEndianTwice | src/client/utils/smbios.cpp:52-55 | turning the fields twice gives the bytes back |
| Smbios.BigEndianBytes | src/client/utils/smbios.cpp:51-55 | the sixteen bytes of the result, each by its place: four, two and two turned around, eight as they are |
| Smbios.GetUuid | src/client/utils/smbios.cpp:61-90 | on every table, well formed or not, the walk ends with what its specification finds, or where the 32-bit offset would wrap |
| Smbios.WalkDecides | src/client/utils/smbios.cpp:67-87 | on every table the walk is a path from structure to structure, each step to two bytes behind the first pair of zeros or the end, and the last structure decides: nothing, a UUID, a read outside or a wrap |
| Smbios.WrapsOnlyNearTheLimit | src/client/utils/smbios.cpp:67-87 | the 32-bit offset never wraps on a table more than 252 bytes below 2^32 |
| Smbios.WalkOverStructure | src/client/utils/smbios.cpp:80-86 | from the start of a structure the walk goes right to its end, over any set of strings |
| Smbios.WalkFindsFirstUuid | src/client/utils/smbios.cpp:61-90 | on every well-formed table the walk stays in bounds, does not wrap and gives the UUID of the first type-1 structure of length at least 0x19, or nothing |
| Smbios.ReadUndoesSerialise | src/client/utils/smbios.cpp:67-87 | walking a serialised list of structures reads the list back, with all its strings |
| OneAtATime.Compute | src/common/utils/cryptography.cpp:644-657 | the loop computes the specified hash |
| OneAtATime.AbsorbInjective | src/common/utils/cryptography.cpp:649-651 | a round loses nothing of the state and nothing of the byte |
| OneAtATime.FinishedInjective | src/common/utils/cryptography.cpp:653-655 | the finaliser loses nothing |
| OneAtATime.CommonEnd | src/common/utils/cryptography.cpp:647-655 | keys that end alike collide exactly when the states before their common end do |
| OneAtATime.KnownHashes | src/common/utils/cryptography.cpp:644-657 | the hashes of "a", "ab" and a byte that counts as -1 are the known ones |
| OneAtATime.OneByteMatters | src/common/utils/cryptography.cpp:644-657 | keys of one length that differ in exactly one byte have different hashes |

## Left out

- Placement of memory by the operating system: `VirtualAlloc` hands out exactly the region asked for, or refuses; asked for address 0 it may hand out any region. What it hands out is taken to be free, zeroed and apart from everything mapped. The depth the stack of the patching thread allows for the recursion is not modelled.
- Page protection, instruction-cache flushing and other threads running into a half-written patch.
- The `detour` life cycle, which depends on MinHook's own bookkeeping; only `move_hook` and the write-back of `un_move` are modelled. MinHook, asmjit, curl, zlib, rapidjson and libtomcrypt are not part of this model.
- Encoding of the stack sequences: `StackFrame` runs instructions, not bytes; which bytes stand for them is asmjit's business.
- `allocate_somewhere_near` with a size other than the granularity: the source never asks for one.
- The 32-bit counter of `dump_hex` on texts of 2^32 bytes or more, and that of the one-at-a-time hash on such keys: the loops would not end.
- The text of the progress dialog beyond its headline, the artificial sleeps, and the numbers of threads a system reports.
- HTTP, file hashes, the choice of outdated files, the relaunch of the host binary and the clean-up of directories: a download is a step that reports progress and then succeeds or fails.
- Sockets, name resolution, the receive limit and polling: addresses are opaque keys, and a packet that arrives arrives whole.
- The cryptographic library: importing a key, hashing it, signing and verifying are functions the model knows nothing about; fresh challenges are an assumption of the lemmas that need it.
- Console output of the server, with its throttling flag, beyond the flag itself.
- Floating-point player fields: 96 opaque bytes; their conversion between double and single precision is not modelled.
- `string`, the wide-character array of the scripts, and the argument passing between scripts and native functions.
- ScriptArray.Array.Resize: elements are values whose constructors and destructors do not throw and touch no array.
- Scheduler.TaskPipeline.Execute: handlers do not throw and do not run their own pipeline again from inside; the single execution lock of a pipeline is taken for granted.
- What a scan finds outside its block, when the block is shorter than the kept-clear tail: that it reads there is all the model says.
- Smbios.GetUuid: where the 32-bit offset would wrap, which takes a table within 252 bytes of 2^32 (WrapsOnlyNearTheLimit), and where a UUID would be read beyond a malformed table, the walk ends with a report of that instead of going on.
- Session.SessionAttachesFreshStates: assumes distinct guids among authenticated players and fewer than 2^64 - 1 reports in the lifetime of the entry, since ids restart at 1 with a new entry and the counter wraps.
- PE loading, TLS, fixed game addresses, Steam interfaces, vtable disassembly and the udis86 tables.
