# Verified model of the RTTView debug stack

RTTView shows what a microcontroller writes into an RTT buffer. Underneath it carries a copy of pyOCD: a USB probe
speaking CMSIS-DAP, an access port to the target's memory, caches, breakpoints and the core's registers. Most of that
stack is a fast or deferred form of something simple. This project models the stateful parts in Dafny and proves that
each of them agrees with its simple form: on every input, in every reachable state, over whole runs.

| files | what they model |
|---|---|
| `Words`, `TargetMemory` | bytes, 32-bit words, little-endian lists; target memory byte by byte |
| `DapWire`, `DapPacket`, `DapFormat`, `DapCommand`, `DapSession`, `DapAccess`, `DapPrograms`, `DapErrors` | the CMSIS-DAP transfer commands and the deferred transfer engine |
| `MemoryMap`, `Intervals`, `CacheModel`, `MemoryCache` | the memory cache in front of a core |
| `RunControl` | the states of a core |
| `CoreRegisters`, `PsrFields`, `RegisterTable`, `RegisterLists`, `RegisterModel`, `RegisterCache` | lists of core registers, and their cache |
| `RttRing`, `RttView` | the RTT ring buffers, shared with a target that keeps running |
| `RegisterFlush`, `ProbeSelect`, `ProbeFlush`, `CswFlush` | the cached SELECT and CSW, also after a failed `flush` |
| `ApMachine`, `ApTrace`, `MemAp`, `MemoryInterface` | memory through DP SELECT, CSW, TAR and DRW, down to the packets |
| `SoftwareBreakpoints`, `Fpb`, `BreakpointManager` | planted instructions, comparators, and their manager |

Run `dafny verify dfyconfig.toml` to check everything.

## The main results

1. **Deferred equals immediate** (`DapPrograms.RunProgram`). Any program of single and repeated register reads and
   writes, with callbacks forced in any order and flushes and mode changes anywhere, gives exactly the answers and the
   target state of executing every operation at once; it ends with an exception only if that execution meets an error.
   An assertion fails exactly when the callback of a read of no words is run with no read of a word behind it. Which
   exception is raised follows the first bad acknowledge of that execution (`DapAccess.DapAccess.Flush`).
2. **The memory cache is invisible** (`CacheModel.CachedReadsAreTruthful`, `CacheModel.SafeStates`,
   `MemoryCache.MemoryCache.Perform`, `MemoryCache.RunSession`). The imperative cache refines a small model; over every
   run each cached read returns the target's bytes, provided cached accesses are made only while the core is RUNNING or
   HALTED and no write fails while it is HALTED. That condition is exact: allowing any of SLEEPING, LOCKUP or RESET, or
   a write that fails while HALTED, admits a run with a stale read.
3. **RTT is a lossless queue** (`RttRing.Fifo`, `RttView.UpLink.AUpRead`, `RttView.DownLink.ADownWrite`), with the
   other side taking any steps between any two memory accesses of the host; two calls of `aUpRead` on an idle target
   empty it (`RttView.TwoCallsDrain`).
4. **Elided register writes and page-split block transfers are unobservable** (`ProbeSelect.RunProbe`,
   `MemAp.MemoryAp.*`, `MemoryInterface.*`), and unaligned byte blocks of any length at any address are exact reads and
   updates of memory. End to end (`MemoryInterface.EndToEnd`, `ApTrace.ThroughEngine`), the driver's calls, run through
   the skipped SELECT writes and the deferred engine against a debug port with a MEM-AP, return the same words and leave
   the same memory.
5. **Breakpoints are invisible and reversible** (`BreakpointManager.RunSession`, `BreakpointManager.NothingLost`): every
   session refines a model of planted addresses, comparators and memory as the user knows it. The comparators stop the
   core exactly at the enabled addresses (`Fpb.FPB.StopsWhereItShould`).
6. **Batched register reads are single reads** (`CoreRegisters.Core.ReadCoreRegistersRaw`). Batched writes are the
   intended single writes exactly for the lists that `RegisterLists.FaithfulLists` describes.
7. **When the register cache can be trusted** (`RegisterModel.SafeRuns`, `RegisterCache.RunSession`): exactly which core
   states and which writes, by register and value and by whether they may fail, keep every read of every run truthful,
   with SP, MSP and PSP, the parts of CFBP and xPSR, and doubles and singles sharing registers as they do in the core.
8. **What a failed `flush` leaves behind**: which callbacks end in an assertion (`DapErrors.CollectAfterError`,
   `DapErrors.WithoutResult`), and exactly when the cached SELECT and CSW are still right
   (`RegisterFlush.SurvivesFailedFlush`, `ProbeFlush.FlushAfter`, `ProbeFlush.Misdirects`,
   `CswFlush.CswSurvivesFailedFlush`).

## Where the code does not do what it is for

- A pending read that was aborted never raises the exception stored in it: the loop tests the result only and ends in
  an assertion (`DapErrors.AbortedRead` is a run, `DapErrors.CollectAfterError` and `DapErrors.WithoutResult` say for
  which reads).
- The callback of a read of no words ends in the same assertion if and only if no read of one word or more was issued
  between it and the callback, whatever has been drained (`DapPrograms.RunProgram`, `DapErrors.EmptyReads`,
  `DapErrors.EmptyReadFails`).
- The responses still owed after an abort are drained after a transfer error only
  (`DapAccess.DapAccess.AbortAllTransfers`).
- `is_running` is true for RUNNING alone, so both caches are trusted in SLEEPING, LOCKUP and RESET
  (`CacheModel.SafeStates`, `RegisterModel.StaleInState`).
- The register cache does not know that registers overlap. On a halted core a write of SP, MSP, PSP, CFBP, XPSR or any
  s- or d-register can leave a cached register stale; so can two writes in one list of CONTROL or of a PSR part with
  IPSR in it (the first of them is dropped); and a value that is no 32-bit number is read back as given. Lists of other
  accepted writes never do (`RegisterModel.StaleWrite`, `RegisterModel.SafeRuns`).
- The register cache is updated before the target is written, so a write that fails leaves the new value cached
  (`RegisterModel.StaleAfterFailure`). The memory cache is updated afterwards, so the bytes a failing write has already
  stored are stale in it (`CacheModel.StaleAfterFailure`).
- A write to a sub-register of CFBP or of the PSR, alone in its list, changes nothing
  (`CoreRegisters.SubRegisterWriteIsLost`, `CoreRegisters.SingleWrites`).
- In a longer list the first sub-register of each kind is dropped, and a later one is merged into the value the
  combined register had before all writes: [CFBP, CONTROL, PRIMASK] leaves the old CFBP with a new PRIMASK
  (`RegisterLists.WholeWriteUndone`), and a write of SP behind it can go to the wrong stack pointer. The lists free of
  this are exactly the well ordered ones (`RegisterLists.FaithfulLists`).
- A failed `flush` keeps the cached SELECT. Over all the ways in which the operations issued since the last good flush
  can be packed, it is still right after every failure if and only if none of them selected another AP or bank
  (`RegisterFlush.SurvivesFailedFlush`). For every other program of queued calls there is a target, and a number of
  packets that the interface can hold, with which the flush always fails and the next access is misdirected
  (`ProbeFlush.Misdirects`). With fewer packets in flight the write of SELECT can be acknowledged before the flush.
- A failed `flush` keeps the cached CSW as well. While all accesses are to one port, it is still right after every
  failure if and only if none of them changed the transfer size (`CswFlush.CswSurvivesFailedFlush`).
- An empty block handed to `_read_block32` or `_write_block32` ends in an assertion (`MemAp.MemoryAp.ReadBlock32`,
  `MemAp.MemoryAp.WriteBlock32`).
- A software breakpoint whose write is executed but reported as failed leaves a BKPT that nobody accounts for
  (`SoftwareBreakpoints.SoftwareBreakpointProvider.SetBreakpoint`).
- The filter of 32-bit blocks takes the i-th word to be at `addr + i`
  (`BreakpointManager.BlockFilterIsRightWhen` gives the exact positions that do no harm).
- A user's write over a planted instruction is lost once the breakpoint goes, unless it wrote the original bytes
  (`SoftwareBreakpoints.WriteSurvives`).
- A comparator of an FPB whose revision is neither 1 nor 2 is written with 0 and never matches, yet counts as set
  (`Fpb.EncodingDecodes`).
- A software or automatic breakpoint on memory that is neither RAM nor flash can run into an assertion instead of
  being refused (`BreakpointManager.BreakpointManager.SetBreakpoint`, `BreakpointManager.ChoiceIs`).
- With a buffer above 1 MiB two calls of `aUpRead` need not empty the ring (`RttView.TwoCallsDrain`).

## How the model is set up

- The target behind the probe is any deterministic machine: its answer to a register operation is a function of the
  operation and of the log of everything it was given before. Two runs end in the same state when their logs are equal.
- USB is a queue with one response per packet. Packets are 9 to 65535 bytes long, at least one may be in flight, and
  the DAP index is 0.
- Exceptions are values: `Outcome`, `Result`, `ReadResult`, `SetResult`, or a boolean for a failed alignment assertion.
- A read "now" is a read followed at once by its callback. Logging, metrics and notifications have no counterpart.
- Python's masks and shifts on addresses and register values are written as divisions and remainders.
- Iteration over a Python set or dictionary is an arbitrary choice at each step.
- The hardware behind the access port is a parameter: what the other lanes of a byte or halfword DRW access carry, what
  TAR holds after the last access of an auto-increment page (wrapping to the start of the page is one case), and what
  all other registers read as, are any functions of its state, SELECT and the request. Its page is any multiple of the driver's. Such a debug
  port is one on which SELECT is a register (`ApMachine.SelectIsOne`), as is every other that is a function of what it
  sees (`ProbeSelect.DebugPortsQualify`).
- Only the low 32 bits of a memory address reach TAR, so blocks wrap at the end of the address space.
- Register 13 is MSP or PSP, chosen by CONTROL.SPSEL and IPSR (Arm DDI 0403, sections B1.4.1 and C1.6.3).
- The host's RTT accesses are byte steps between which the target runs for any number of steps; an RTT offset is read
  or written in one step.

## Model

| member | source | states |
|---|---|---|
| Words.ByteListToU32leList | pyocd/utility/conversion.py:21-37 | words whose bytes are the list, least significant first, the last one filled up with the padding value |
| Words.U32leListToByteList | pyocd/utility/conversion.py:39-47 | the bytes of the low 32 bits of every element, least significant first |
| Words.WordsOfBytesOf | pyocd/utility/conversion.py:21-47 | words to bytes to words keeps exactly the low 32 bits of every element |
| Words.BytesOfWordsOf | pyocd/utility/conversion.py:21-47 | bytes to words to bytes is the identity on whole groups of four |
| DapWire.ParseTransferRequest | pyocd/probe/pydapaccess/dap_access_cmsis_dap.py:285-318 | parsing a DAP_Transfer packet as the firmware does gives back its operations, whatever padding follows |
| DapWire.ParseBlockRequest | pyocd/probe/pydapaccess/dap_access_cmsis_dap.py:346-384 | the same for DAP_TransferBlock, whose operations all carry one request |
| DapWire.RunConcat | pyocd/probe/pydapaccess/dap_access_cmsis_dap.py:763-839 | immediate execution of two lists is the first, then the second from where it ended, unless the first failed |
| DapWire.FirstBad | pyocd/probe/pydapaccess/dap_access_cmsis_dap.py:320-344 | the acknowledge of an execution is that of the first operation not acknowledged with 1, nothing behind that one is given to the target, and it is 1 if there is none |
| DapWire.RunOneMore | pyocd/probe/pydapaccess/dap_access_cmsis_dap.py:763-839 | each further acknowledged operation adds the word it reads exactly if bit 1 of its request is set |
| DapPacket.RequestLength | pyocd/probe/pydapaccess/dap_access_cmsis_dap.py:175-252 | a packet that passes the space accounting is never longer than the interface's packet, in either mode |
| DapPacket.ResponseLength | pyocd/probe/pydapaccess/dap_access_cmsis_dap.py:175-214 | nor is the response to it, whatever the target answers |
| DapPacket.PacketRoundTrip | pyocd/probe/pydapaccess/dap_access_cmsis_dap.py:413-426 | encoding then parsing is the identity on every packet that fits; block mode is used exactly for packets of one request kind |
| DapFormat.Requests | pyocd/probe/pydapaccess/dap_access_cmsis_dap.py:763-839 | a request byte has bit 0 for the AP, bit 1 for a read and the register's address in bits 2 and 3 |
| DapFormat.Operations | pyocd/probe/pydapaccess/dap_access_cmsis_dap.py:763-839 | the operations of every call, in request bytes and values |
| DapFormat.TransferRequestBytes | pyocd/probe/pydapaccess/dap_access_cmsis_dap.py:285-318 | where in a DAP_Transfer packet each operation's request byte and value are |
| DapFormat.BlockRequestBytes | pyocd/probe/pydapaccess/dap_access_cmsis_dap.py:346-384 | the same for DAP_TransferBlock, with its count in two bytes and one request byte |
| DapFormat.PacketsAre | pyocd/probe/pydapaccess/dap_access_cmsis_dap.py:413-426 | packets of one request byte go out as DAP_TransferBlock, all others as DAP_Transfer, filled up with zeros |
| DapFormat.WhatFits | pyocd/probe/pydapaccess/dap_access_cmsis_dap.py:175-248 | operations fit exactly when their request and their response are no longer than a packet and, in DAP_Transfer, their number fits a byte |
| DapPacket.TransferResponses | pyocd/probe/pydapaccess/dap_access_cmsis_dap.py:320-344 | what a response that starts with 5 decodes to, byte by byte: acknowledge 4 is a fault, 2 a timeout, any other but 1 a transfer error, and so is a wrong count; another first byte is a ValueError |
| DapPacket.BlockResponses | pyocd/probe/pydapaccess/dap_access_cmsis_dap.py:386-411 | the same for a response that starts with 6, whose count has two bytes |
| DapPacket.Exchange | pyocd/probe/pydapaccess/dap_access_cmsis_dap.py:320-344 | one exchange returns the words of immediate execution, or the exception of its first bad acknowledge (fault for 4, timeout for 2, a transfer error for any other), and leaves the target where immediate execution leaves it |
| DapCommand.Command.GetRequestSpace | pyocd/probe/pydapaccess/dap_access_cmsis_dap.py:216-248 | the space reported is the largest number of operations with which request and response still fit and DAP_Transfer counts no more than 255, also when the free space goes negative after a mode switch |
| DapCommand.Command.Add | pyocd/probe/pydapaccess/dap_access_cmsis_dap.py:260-283 | the packet's operations grow by exactly those of the request, and counters and block flag keep describing them |
| DapCommand.Command.EncodeTransferData | pyocd/probe/pydapaccess/dap_access_cmsis_dap.py:285-318 | filling the buffer position by position gives the DAP_Transfer encoding of the packet's operations, zero-padded |
| DapCommand.Command.EncodeTransferBlockData | pyocd/probe/pydapaccess/dap_access_cmsis_dap.py:346-384 | the same for DAP_TransferBlock |
| DapCommand.Command.EncodeData | pyocd/probe/pydapaccess/dap_access_cmsis_dap.py:413-426 | the packet that leaves is the encoding, in the right mode, of exactly the operations added |
| DapCommand.Command.DecodeData | pyocd/probe/pydapaccess/dap_access_cmsis_dap.py:428-438 | the read data of a good response, or the exception for its command byte, acknowledge or count, in numbers |
| DapSession.Conservation | pyocd/probe/pydapaccess/dap_access_cmsis_dap.py:864-905 | the pending reads' total size is the left-over bytes plus four per read operation in flight, in the current packet or not yet packed |
| DapSession.PendingIsUnderway | pyocd/probe/pydapaccess/dap_access_cmsis_dap.py:128-147 | a pending read of a word or more always has something in flight, in the current packet or still to be packed |
| DapSession.SomeoneWaits | pyocd/probe/pydapaccess/dap_access_cmsis_dap.py:886-905 | with left-over bytes there is a pending read, so the head of the list is never read empty |
| DapSession.Complete | pyocd/probe/pydapaccess/dap_access_cmsis_dap.py:886-905 | the head read is completed with exactly its own words of immediate execution |
| DapSession.Receive | pyocd/probe/pydapaccess/dap_access_cmsis_dap.py:864-905 | reading a good response keeps the bookkeeping balanced and never changes what was issued or already read |
| DapSession.ReceiveFailure | pyocd/probe/pydapaccess/dap_access_cmsis_dap.py:872-880 | a response that raises means immediate execution fails too |
| DapSession.Drained | pyocd/probe/pydapaccess/dap_access_cmsis_dap.py:645-650 | with nothing in flight or being built, everything issued has been executed and acknowledged, no bytes are left over and no read of a word or more waits |
| DapAccess.Transfer.AddResponse | pyocd/probe/pydapaccess/dap_access_cmsis_dap.py:106-119 | the stored words are those whose bytes were delivered |
| DapAccess.DapAccess.AbortAllTransfers | pyocd/probe/pydapaccess/dap_access_cmsis_dap.py:1003-1018 | every read without a result gets the exception, the buffers start empty, and after a transfer error no response is owed, so the next response belongs to the next packet |
| DapAccess.DapAccess.ReadPacket | pyocd/probe/pydapaccess/dap_access_cmsis_dap.py:864-905 | one response is consumed and the engine's invariant holds again, or the engine restarts and immediate execution fails |
| DapAccess.DapAccess.SendPacket | pyocd/probe/pydapaccess/dap_access_cmsis_dap.py:907-930 | packets in flight equal the responses owed and never exceed the interface's packet count |
| DapAccess.DapAccess.Flush | pyocd/probe/pydapaccess/dap_access_cmsis_dap.py:645-650 | it returns normally if and only if immediate execution of everything issued meets no error, and then nothing is buffered and every read of a word or more has its words; otherwise it raises TransferFault, TransferTimeout or TransferError as the first bad acknowledge is 4, 2 or another, the target was given the packets in flight in order, each as far as its first refusal, and the old reads are out of the engine, with their words or with the exception |
| DapAccess.DapAccess.PackAll | pyocd/probe/pydapaccess/dap_access_cmsis_dap.py:932-985 | the packing loop puts exactly the call's operations behind those issued before; it ends by the measure (words left, current packet non-empty) |
| DapAccess.DapAccess.Write | pyocd/probe/pydapaccess/dap_access_cmsis_dap.py:932-985 | what is issued grows by exactly the call's operations; without deferring they have been executed on return |
| DapAccess.DapAccess.GetResult | pyocd/probe/pydapaccess/dap_access_cmsis_dap.py:128-147 | a read of the session gets its own words or the exception for the acknowledge of the first failing operation; it meets the assertion if and only if all goes well and neither it nor any read behind it asks for a word; a read that was aborted never returns, but ends in the assertion or in a later operation's exception; the loop ends |
| DapAccess.DapAccess.SetDeferredTransfer | pyocd/probe/pydapaccess/dap_access_cmsis_dap.py:619-643 | leaving deferred mode drains everything first; a failure leaves the mode as it was |
| DapPrograms.RunProgram | pyocd/probe/pydapaccess/dap_access_cmsis_dap.py:763-839 | whole programs through the deferred engine give the answers, the final target state and the success or failure of immediate execution; an assertion fails exactly at the first callback of an empty read with no read of a word behind it |
| DapPrograms.Perform | pyocd/probe/pydapaccess/dap_access_cmsis_dap.py:763-839 | each call issues exactly the operations of its immediate meaning, and a forced callback returns that read's part of the words |
| DapErrors.EmptyReads | pyocd/probe/pydapaccess/dap_access_cmsis_dap.py:128-147 | an empty read alone runs into the assertion; followed by a read of a word it does not, unless its callback comes first |
| DapErrors.EmptyReadFails | pyocd/probe/pydapaccess/dap_access_cmsis_dap.py:128-147 | on the engine, whatever was issued before: if the target acknowledges all of it, the callback of an empty read that is the last to be issued fails the assertion, and the engine stays as it was |
| DapErrors.CollectAfterError | pyocd/probe/pydapaccess/dap_access_cmsis_dap.py:121-147 | after a failed flush, a read completed before gives its words; any other holds the exception, yet its callback ends in the assertion |
| DapErrors.WithoutResult | pyocd/probe/pydapaccess/dap_access_cmsis_dap.py:886-905 | a read of a word or more is left without a result exactly when some of its words are not among those of the acknowledged packets |
| DapErrors.AbortedRead | pyocd/probe/pydapaccess/dap_access_cmsis_dap.py:121-147 | on the engine, for every target that refuses the read: the deferred read holds the exception and no result, its callback ends in the assertion, and the target was given exactly that read |
| MemoryMap.IntersectsMeansShares | pyocd/core/memory_map.py:81-85 | the comparison of bounds holds exactly when region and range share an address |
| MemoryMap.GetRegionForAddress | pyocd/core/memory_map.py:351-355 | the region found is the first in the list that contains the address; none is found only if none does |
| MemoryMap.RegionDiscipline | pyocd/debug/cache.py:400-412 | an access is cached only if each of its bytes is in exactly one region, a cacheable one, and bypasses the cache only if none of its bytes is |
| MemoryMap.CacheableByteIsCached | pyocd/debug/cache.py:400-412 | a single byte is treated as cacheable exactly when it is in one region only, a cacheable one |
| MemoryMap.AccessIs | pyocd/debug/cache.py:400-412 | an access is refused if and only if some region shares an address with it and it is not the case that exactly one does and holds it all; it is cached if and only if that one is cacheable |
| MemoryMap.CacheableBytes | pyocd/debug/cache.py:400-412 | a byte may be cached exactly when one region alone holds its address and is cacheable |
| Intervals.TakeOut | pyocd/debug/cache.py:259-275 | taking one interval out of a set of pieces leaves disjoint non-empty pieces with exactly the other addresses |
| Intervals.GetRanges | pyocd/debug/cache.py:253-277 | for any iteration order, the uncached pieces are disjoint, non-empty, and exactly the requested addresses that nothing cached holds |
| Intervals.SortByBegin | pyocd/debug/cache.py:316-341 | the intervals in address order, none lost or added |
| Intervals.CoverageIsContiguous | pyocd/debug/cache.py:316-341 | sorted intervals that overlap a range and together cover it touch one another and reach both its ends |
| Intervals.MergeData | pyocd/debug/cache.py:343-370 | for every combination of ragged edges the result is exactly the requested bytes, each from the interval that holds it |
| CacheModel.NextKeepsCoherence | pyocd/debug/cache.py:238-246 | every event keeps: cached bytes are the target's when halted with matching tokens, tokens differ while the core may run, only cacheable bytes are cached |
| CacheModel.CachedReadsAreTruthful | pyocd/debug/cache.py:430-447 | over every run of reads, writes, halt, resume, step, reset and target activity, with accesses in RUNNING and HALTED and no failing write while HALTED, each cached read returns the target's bytes |
| CacheModel.StaleRead | pyocd/coresight/cortex_m.py:950-951 | for each other core state a concrete run in which a cached read is stale |
| CacheModel.StaleAfterFailure | pyocd/debug/cache.py:469-491 | a run in which a write on a halted core fails after it has stored its byte, and the cached byte is stale |
| CacheModel.SafeStates | pyocd/coresight/cortex_m.py:927-951 | a set of states in which cached accesses are allowed is safe if and only if it has no state but RUNNING and HALTED, and not HALTED if writes may fail |
| MemoryCache.MemoryCache.CheckCache | pyocd/debug/cache.py:238-246 | dropped while the core runs, and once after each change of the run token |
| MemoryCache.MemoryCache.ReadUncached | pyocd/debug/cache.py:279-286 | in any order, each missing piece is added with the bytes the target holds there |
| MemoryCache.MemoryCache.ReadRange | pyocd/debug/cache.py:316-341 | the intervals returned are cached, contiguous and span the range; the cache gains exactly the range's bytes |
| MemoryCache.MemoryCache.UpdateContiguous | pyocd/debug/cache.py:374-398 | merging lead, value and trail keeps the intervals disjoint and changes exactly the written bytes |
| MemoryCache.MemoryCache.UpdateCache | pyocd/debug/cache.py:474-491 | all three cases of a write keep the intervals disjoint with data as long as their extent, and change exactly the written bytes |
| MemoryCache.MemoryCache.ReadMemoryBlock8 | pyocd/debug/cache.py:430-447 | result and cache are those of the model's read; refused if and only if the access crosses a region's border, the target's bytes where it bypasses the cache, all its bytes cached afterwards where it does not, and nothing fetched when they were before |
| MemoryCache.MemoryCache.WriteMemoryBlock8 | pyocd/debug/cache.py:460-491 | a non-empty write is refused if and only if it crosses a region's border, and then changes nothing; otherwise, cacheable or not, target memory holds exactly the bytes written, or those before the fault, and the cache is that of the model's write, left alone by a write that fails |
| MemoryCache.MemoryCache.Perform | pyocd/debug/cache.py:430-498 | whatever happens, core and cache move as the model says, so the results over runs are theirs |
| MemoryCache.RunSession | pyocd/debug/cache.py:430-498 | whole sessions on the imperative cache and core: every read wholly inside the only region it touches, or touching none, returns the bytes the target holds at that moment, every other is refused; every write arrives in the target's memory, up to its fault, unless it crosses the border of a region |
| MemoryCache.FillGaps | pyocd/debug/cache.py:279-286 | adding the fetched pieces keeps the set well formed and makes the contents those of the model |
| MemoryCache.ReplaceOverlap | pyocd/debug/cache.py:374-398 | replacing everything that overlaps a write by one interval is well formed and changes exactly the written bytes |
| CoreRegisters.Core.ReadPlain | pyocd/coresight/cortex_m.py:1029-1063 | a list without doubles is read as one by one, sub-registers cut out of their combined register |
| CoreRegisters.Core.ReadCoreRegistersRaw | pyocd/coresight/cortex_m.py:996-1081 | every list, with repetitions, doubles and sub-registers, gives the list of single reads; unknown or FPU registers without an FPU are refused |
| RegisterTable.KnownIsTable | pyocd/coresight/cortex_m.py:76-156 | the numbers accepted are those of the register table, listed |
| RegisterTable.NeedsFpu | pyocd/coresight/cortex_m.py:175-185 | of them, FPSCR, s0 to s31 and d0 to d15 are refused without an FPU, and no other |
| RegisterTable.PartsOfCfbp | pyocd/coresight/cortex_m.py:1056-1059 | CONTROL, FAULTMASK, BASEPRI and PRIMASK are the bytes of CFBP from the top down |
| RegisterTable.PartsOfPsr | pyocd/coresight/cortex_m.py:194-202 | each of the six PSR parts is xPSR with only its own fields, in their places |
| RegisterTable.OtherRegisters | pyocd/coresight/cortex_m.py:1019-1063 | every other register is read under its own number, a double as its two singles, and SP as the stack pointer in use |
| CoreRegisters.Core.WriteCoreRegistersRaw | pyocd/coresight/cortex_m.py:1104-1176 | the bank becomes what the two loops make of the list: the first sub-register of each kind is dropped, the later ones are merged into the combined value read before all writes; a list with an unacceptable register changes nothing; an exception on the way leaves the writes made before it |
| CoreRegisters.WholeRegisterWrites | pyocd/coresight/cortex_m.py:1104-1176 | a register no part of which is written under another name ends up with the last value written to it |
| CoreRegisters.SubRegisterWriteIsLost | pyocd/coresight/cortex_m.py:1135-1138 | a single write to a CFBP or PSR sub-register changes no register |
| CoreRegisters.SingleWrites | pyocd/coresight/cortex_m.py:1135-1138 | a single write is seen by the next read for every bank and value, if and only if it is not to such a sub-register |
| RegisterTable.PutsIntoCfbp | pyocd/coresight/cortex_m.py:1146-1153 | a part of CFBP put into it replaces its byte and no other |
| RegisterTable.PutsIntoPsr | pyocd/coresight/cortex_m.py:1154-1158 | a part of xPSR put into it replaces the fields it has and no other bit |
| RegisterLists.FaithfulLists | pyocd/coresight/cortex_m.py:1104-1176 | a list is written as its registers one by one, for every bank and all values, if and only if every part of CFBP and xPSR is last written by a whole-register write with only a dropped sub-register behind it or by a sub-register that is not dropped, and every write of SP finds CONTROL and IPSR so or is followed by writes of MSP and PSP |
| RegisterLists.PassIsApply | pyocd/coresight/cortex_m.py:1120-1176 | collecting first and writing afterwards is one pass that keeps a combined value of its own for CFBP and for xPSR |
| RegisterLists.IntendedParts | pyocd/coresight/cortex_m.py:1144-1171 | written one by one, each byte of CFBP and field of xPSR comes from the last write that names it |
| RegisterLists.PassParts | pyocd/coresight/cortex_m.py:1104-1176 | as the code writes, each comes from the last whole-register write or from the last merged sub-register, whichever of the two writes came last |
| RegisterLists.WholeWriteUndone | pyocd/coresight/cortex_m.py:1130-1171 | CFBP, CONTROL, PRIMASK leaves the CFBP from before the list with the new PRIMASK |
| PsrFields.PutIsMix | pyocd/coresight/cortex_m.py:1154-1158 | masking a PSR sub-register into xPSR replaces exactly the fields its mask covers |
| RegisterCache.RegisterCache.ReadCoreRegistersRaw | pyocd/debug/cache.py:127-182 | answer and cache are those of the model: what is asked for and not cached is read, with its whole group, and each group stays cached all or none |
| RegisterCache.RegisterCache.WriteCoreRegistersRaw | pyocd/debug/cache.py:184-208 | the core is written as without a cache, up to an exception if there is one, and the cache becomes that of the model, with touched groups dropped, in either case |
| RegisterCache.RegisterCache.MissingRegisters | pyocd/debug/cache.py:127-160 | exactly the uncached registers are read, with the combined register of every group among them |
| RegisterCache.RegisterCache.Perform | pyocd/debug/cache.py:104-213 | whatever happens, core and cache move as the model says |
| RegisterCache.RunSession | pyocd/debug/cache.py:104-213 | whole sessions on the imperative cache and core: with accesses and writes as `SafeRuns` demands, every read returns what single reads would return at that moment |
| RegisterModel.NextKeepsGroups | pyocd/debug/cache.py:127-208 | every event keeps the CFBP and XPSR groups cached all or none |
| RegisterModel.NextKeepsCoherence | pyocd/debug/cache.py:104-213 | every event of reads, harmless writes, halt, resume, step, reset and target activity keeps the cached values those of the core, and reads are truthful; stale values are dropped while the core runs and after each change of the run token |
| RegisterModel.CachedReadsAreTruthful | pyocd/debug/cache.py:127-182 | over every run as disciplined as `Safe` asks, every read returns what single reads would |
| RegisterModel.StaleInState | pyocd/coresight/cortex_m.py:950-951 | for each other core state a concrete run with a stale register |
| RegisterModel.StaleWrite | pyocd/debug/cache.py:184-208 | for every write that is not harmless a run on a halted core, with one list of that write once or twice, after which a cached register is stale |
| RegisterModel.StaleAfterFailure | pyocd/debug/cache.py:195-208 | for every harmless write of a whole register a run on a halted core in which it fails and the cached value was never written |
| RegisterModel.NeutralKeepsTruth | pyocd/debug/cache.py:195-208 | a list of writes to neutral parts may fail anywhere on its way: what may have been written is not cached any more |
| RegisterModel.SafeRuns | pyocd/debug/cache.py:104-213 | states, writes and whether they may fail keep every read of every run truthful if and only if no state but RUNNING and HALTED is allowed and, when HALTED is, only harmless writes are (32-bit values to registers nothing shares, parts that cannot move SP, or writes that are refused), and of whole registers only those that cannot fail |
| RttRing.StageKeeps | RTTView.py:400-424 | a producer writing a free slot disturbs no unread byte |
| RttRing.PublishKeeps | RTTView.py:424 | moving WrOff publishes exactly the staged bytes |
| RttRing.TakeKeeps | RTTView.py:386-387 | a consumer copying the next byte gets the next byte of the stream |
| RttRing.ReleaseKeeps | RTTView.py:389-391 | moving RdOff releases exactly the bytes copied |
| RttRing.Fifo | RTTView.py:374-424 | at every moment of every interleaving the bytes consumed are a prefix of those produced and the rest is in the buffer, not overwritten |
| RttView.UpLink.AUpRead | RTTView.py:367-398 | with the target producing all the while, the bytes returned are the next of the stream: the piece of the buffer from RdOff to WrOff, or to the end when the data wraps, as seen at the snapshot, unless it is 1 MiB or longer; and RdOff ends up behind exactly those |
| RttView.TwoCallsDrain | RTTView.py:367-398 | two calls made in a row, the target publishing nothing meanwhile: they return all that was unread and leave the ring empty if and only if neither meets the limit, always for buffers of up to 1 MiB |
| RttView.DownLink.WriteMem | RTTView.py:411-414 | the write stays inside the buffer and the free slots, byte after byte, while the target consumes |
| RttView.DownLink.WriteToTheEnd | RTTView.py:409-417 | the first piece: as much as fits before the end of the buffer, leaving a slot free |
| RttView.DownLink.WriteUpToRdOff | RTTView.py:419-423 | the second piece completes exactly min(len, free) bytes |
| RttView.DownLink.ADownWrite | RTTView.py:400-424 | exactly min(len, (RdOff - WrOff - 1) mod Size) bytes of the snapshot are accepted, as a prefix of the input, and WrOff moves by as many; WrOff never reaches RdOff; what the target consumes is a prefix of what was accepted |
| RttView.SecondPiece | RTTView.py:409-423 | the two pieces together are exactly the free slots or the whole input, and stay clear of RdOff across the wrap |
| ProbeSelect.CMSISDAPProbe.WriteDp | pyocd/probe/cmsis_dap_probe.py:267-283 | SELECT ends up holding the value whether or not the write is skipped; the cached value is -1 or what SELECT will hold; only a value of -1 on an empty cache is lost; for another register exactly one write with its address and the low 32 bits of the value reaches the debug port |
| ProbeSelect.CMSISDAPProbe.ReadDp | pyocd/probe/cmsis_dap_probe.py:248-265 | exactly one read with the register's address reaches the debug port, and SELECT stays as it is |
| ProbeSelect.CMSISDAPProbe.AccessAp | pyocd/probe/cmsis_dap_probe.py:285-356 | whatever was cached, the access reaches the AP, bank and register its address names |
| ProbeSelect.CMSISDAPProbe.ReadAp | pyocd/probe/cmsis_dap_probe.py:285-304 | one read of the named AP register under the SELECT value of its address |
| ProbeSelect.CMSISDAPProbe.WriteAp | pyocd/probe/cmsis_dap_probe.py:306-320 | one write of the named AP register under the SELECT value of its address |
| ProbeSelect.CMSISDAPProbe.ReadApMultiple | pyocd/probe/cmsis_dap_probe.py:322-343 | the repeated reads all reach the named register |
| ProbeSelect.CMSISDAPProbe.WriteApMultiple | pyocd/probe/cmsis_dap_probe.py:345-356 | the repeated writes all reach the named register, in order |
| ProbeSelect.AlwaysMeans | pyocd/probe/cmsis_dap_probe.py:248-356 | the reference of `RunProbe` for each call, in request bytes and values |
| ProbeSelect.Addresses | pyocd/probe/cmsis_dap_probe.py:285-290 | of an AP register's address, the AP number and the bank go to SELECT, the register to the request |
| ProbeSelect.RunSame | pyocd/probe/cmsis_dap_probe.py:267-356 | from states a debug port cannot tell apart the same operations give the same answers and states it cannot tell apart |
| ProbeSelect.ElidedRunsAlike | pyocd/probe/cmsis_dap_probe.py:267-283 | a call without its redundant SELECT write succeeds with the same words wherever the full call does |
| ProbeSelect.ThinnedSameAnswers | pyocd/probe/cmsis_dap_probe.py:285-356 | leaving out register writes changes which words belong to which callback for no program |
| ProbeSelect.RunProbe | pyocd/probe/cmsis_dap_probe.py:248-356 | whole programs: through the elided writes and the deferred engine, answers and accesses seen by the debug port are those of immediate execution with SELECT always written |
| RegisterFlush.SurvivesFailedFlush | pyocd/probe/cmsis_dap_probe.py:230-235 | over every target and every packing, what a cached register holds after a failing flush is what the cache says, if and only if no operation since the last good flush wrote it with another value than it held; for SELECT, and below for CSW |
| RegisterFlush.LeftAtRefusal | pyocd/probe/pydapaccess/dap_access_cmsis_dap.py:864-930 | a target that refuses everything from some operation on leaves the register where the refusing began, however the operations were packed |
| ProbeFlush.IssueCall | pyocd/probe/cmsis_dap_probe.py:230-356 | one call through the probe object and the engine: the link is asked for what the probe issued, and an exception forgets the cached value |
| ProbeFlush.FlushAfter | pyocd/probe/cmsis_dap_probe.py:230-235 | any program of queued calls, then a flush, on the engine: the cached value is what SELECT would hold, and if the flush fails the target was given the packets in flight as far as their first refusals; the cached value is then right when the program stayed at the AP and bank selected before |
| ProbeFlush.Misdirects | pyocd/probe/cmsis_dap_probe.py:230-235 | for every other program there is a target and a number of packets in flight with which whatever `FlushAfter` returns is a failed flush and a cached value that SELECT does not hold |
| CswFlush.CswSurvivesFailedFlush | pyocd/coresight/dap.py:117-122 | while SELECT stays at the port, what CSW holds after a failing flush is what the driver has cached, over every target and packing, if and only if no operation since the last good flush wrote it with another value |
| MemAp.MemoryAp.WriteReg | pyocd/coresight/ap.py:214-232 | CSW holds the value whether or not the write is skipped; after an exception nothing is cached, so the cached value is true whether or not the write was executed |
| MemAp.MemoryAp.ReadReg | pyocd/coresight/ap.py:208-212 | a CSW read answered from the cache is what the register holds; TAR is read as it is, DRW as the addressed bytes, and any other register as what the hardware answers under its SELECT value and request |
| MemAp.MemoryAp.ResetDidOccur | pyocd/coresight/ap.py:234-236 | whatever the reset has put into CSW, the cached value can be trusted again |
| MemAp.MemoryAp.WriteMemory | pyocd/coresight/ap.py:241-265 | at the low 32 bits of any address exactly the addressed bytes change, to the low bytes of the value, through the right lanes; a misaligned address fails and changes nothing |
| MemAp.MemoryAp.ReadMemory | pyocd/coresight/ap.py:270-314 | the little-endian value of the addressed bytes, whatever the other lanes carry |
| MemAp.MemoryAp.WriteBlock32 | pyocd/coresight/ap.py:319-339 | one transaction inside a page writes its words to consecutive addresses; an empty one fails |
| MemAp.MemoryAp.ReadBlock32 | pyocd/coresight/ap.py:344-365 | one transaction inside a page reads consecutive words; an empty one fails |
| MemAp.MemoryAp.ChunkSize | pyocd/coresight/ap.py:372-374 | a chunk is non-empty, whole words, no more than is left, and does not cross the auto-increment page |
| MemAp.CswFor | pyocd/coresight/ap.py:90-94 | the three CSW values the driver writes |
| MemAp.MemoryAp.WriteMemoryBlock32 | pyocd/coresight/ap.py:368-379 | for every aligned address and length, also across the end of the address space, the effect is that of word after word, on hardware whose TAR cannot leave its page; the loop ends |
| MemAp.MemoryAp.ReadMemoryBlock32 | pyocd/coresight/ap.py:384-394 | for every aligned address and length, also across the end of the address space, the words read are those in memory |
| MemAp.InsideHardwarePage | pyocd/coresight/ap.py:186-190 | a stretch inside a page of the driver's size is inside a hardware page that is a multiple of it |
| MemAp.ShiftedToLane | pyocd/coresight/ap.py:247-250 | shifting by the low address bits puts the low bytes of any value into the lanes the access uses |
| MemAp.FromLaneBytes | pyocd/coresight/ap.py:293-296 | shifting back and masking gives the value of exactly those lanes |
| MemoryInterface.ReadMemoryBlock8 | pyocd/core/memory_interface.py:68-104 | for every address and length, exactly the bytes of memory at those addresses modulo 2^32, by aligned accesses only |
| MemoryInterface.WriteMemoryBlock8 | pyocd/core/memory_interface.py:107-142 | for every address and data, exactly those bytes of memory change, by aligned accesses only; up to 4 GiB each byte is at its own address modulo 2^32 and all others are as before |
| MemoryInterface.RoundTrip | pyocd/core/memory_interface.py:68-142 | writing any bytes anywhere and reading them back returns them, unless they have lapped the address space |
| MemoryInterface.EndToEnd | pyocd/core/memory_interface.py:68-142 | the round trip replayed through the probe object and the deferred engine: the same words come back, and the memory of the hardware at the other end has exactly those bytes changed |
| ApTrace.ThroughEngine | pyocd/probe/cmsis_dap_probe.py:248-356 | whatever a driver has asked of an access port, the skipped SELECT writes and the deferred engine give it the same words, callback by callback, and leave the port and its memory in the same state |
| ApTrace.ReadTraced | pyocd/coresight/ap.py:270-314 | a read of an AP register with its callback, as the driver sees it, is what executing its operations on the hardware gives |
| ApMachine.SelectIsOne | pyocd/probe/cmsis_dap_probe.py:267-283 | on a debug port with a MEM-AP behind it, replies depend on nothing but the accesses and the SELECT values they ran under |
| ApMachine.RegisterMap | pyocd/coresight/ap.py:30-32 | on the hardware CSW is at 0x00 and TAR at 0x04 |
| ApMachine.ReadsWord | pyocd/coresight/ap.py:344-365 | a word read of DRW, at 0x0C, gives the word TAR points at |
| ApMachine.WritesWord | pyocd/coresight/ap.py:319-339 | a word write to DRW changes that word and no other byte |
| SoftwareBreakpoints.SoftwareBreakpointProvider.FilterMemory | pyocd/debug/breakpoints/software.py:88-104 | for any order of the breakpoints, each half of the value is the original instruction where one is planted and unchanged elsewhere |
| SoftwareBreakpoints.FilteredIsOriginal | pyocd/debug/breakpoints/software.py:88-104 | a filtered, aligned 8, 16 or 32-bit value is the one memory would hold without breakpoints |
| SoftwareBreakpoints.SoftwareBreakpointProvider.SetBreakpoint | pyocd/debug/breakpoints/software.py:52-74 | refused exactly when not RAM or not halfword-aligned; otherwise 0x00 and 0xbe are in memory, the halfword that was there is remembered, no other byte changes and the memory seen through the filter is unchanged; a transfer error leaves no breakpoint, and a stray BKPT exactly when the write was executed all the same |
| SoftwareBreakpoints.SoftwareBreakpointProvider.RemoveBreakpoint | pyocd/debug/breakpoints/software.py:76-86 | the remembered halfword is back in memory and the entry is gone, or stays after a transfer error; the memory seen through the filter is unchanged in either case |
| SoftwareBreakpoints.WriteKeepsPlanted | pyocd/coresight/cortex_m.py:634-638 | a user's write clear of planted instructions updates the original memory as if there were none |
| SoftwareBreakpoints.WriteSurvives | pyocd/debug/breakpoints/software.py:76-104 | a user's write updates the original memory if and only if it puts the original bytes where instructions are planted |
| Fpb.FPB.constructor | pyocd/coresight/fpb.py:58-73 | revision and number of comparators are those in FP_CTRL's bits; all comparators are cleared and free, and the unit is off |
| Fpb.ControlFields | pyocd/coresight/fpb.py:58-66 | where in FP_CTRL the revision and the number of comparators are |
| Fpb.Encodings | pyocd/coresight/fpb.py:116-124 | the comparator values for each halfword of a word, on both revisions |
| Fpb.EncodingDecodes | pyocd/coresight/fpb.py:116-124 | for odd addresses too, the comparator value matches the halfword that holds the address and no other, if and only if the revision is 1 or 2 |
| Fpb.FPB.SetBreakpoint | pyocd/coresight/fpb.py:101-129 | the first free comparator is taken if and only if one is free and the revision is 2 or the address below 0x2000_0000; the used count stays the number enabled |
| Fpb.FPB.RemoveBreakpoint | pyocd/coresight/fpb.py:132-138 | the first comparator in use for the address is released, all others stay |
| Fpb.FPB.StopsWhereItShould | pyocd/coresight/fpb.py:101-138 | on a known revision the unit stops the core at a halfword if and only if an enabled comparator's address lies in it |
| BreakpointManager.KeysAreDisjointUnion | pyocd/debug/breakpoints/manager.py:48-171 | the manager's keys are the disjoint union of the planted addresses and the enabled comparators |
| BreakpointManager.ChoiceIs | pyocd/debug/breakpoints/manager.py:68-117 | the choice that sessions make is that whole table |
| BreakpointManager.KindIs | pyocd/debug/breakpoints/manager.py:68-79 | the kind of memory is that of the first region that holds the address, by its inclusive bounds |
| BreakpointManager.BreakpointManager.SetBreakpoint | pyocd/debug/breakpoints/manager.py:48-128 | in RAM, AUTO and SW plant and leave the comparators alone; HW takes a comparator if the address is supported and one is free, plants if it is not supported, and is refused otherwise; in flash and unknown memory a comparator is taken if supported and free, else the request is refused; in other memory HW does the same, AUTO runs into an assertion instead of being refused, and SW always does; an address already set stays, and filtered memory does not change |
| BreakpointManager.BreakpointManager.ChooseKind | pyocd/debug/breakpoints/manager.py:68-117 | the flow of conditions decides as the table by kind of memory does, which is that of `ChoiceIs` |
| BreakpointManager.BreakpointManager.RemoveBreakpoint | pyocd/debug/breakpoints/manager.py:131-144 | exactly that entry is gone from manager and provider, and filtered memory does not change |
| BreakpointManager.BreakpointManager.RemoveAllBreakpoints | pyocd/debug/breakpoints/manager.py:167-171 | no entry, planted instruction or comparator is left and memory is exactly the original |
| BreakpointManager.BreakpointManager.FilterMemory | pyocd/debug/breakpoints/manager.py:150-153 | of the providers, in any order, those that filter do, and that is the software provider once |
| BreakpointManager.BreakpointManager.ReadMemory | pyocd/coresight/cortex_m.py:610-624 | single reads show the original memory |
| BreakpointManager.BreakpointManager.ReadMemoryBlock8 | pyocd/debug/breakpoints/manager.py:155-159 | byte blocks show the original memory |
| BreakpointManager.BreakpointManager.ReadMemoryBlock32 | pyocd/debug/breakpoints/manager.py:161-165 | the i-th word of a block is filtered as if it were at addr + i |
| BreakpointManager.BlockFilterIsRightWhen | pyocd/debug/breakpoints/manager.py:161-165 | 32-bit blocks show the original of every memory if and only if the block has no breakpoint but in its first word, and for three words or more only in that word's lower half |
| BreakpointManager.RunSession | pyocd/debug/breakpoints/manager.py:48-171 | any session of setting, removing, writing and reading refines the model: reads of blocks and single values show memory as the user knows it, 32-bit blocks do where the planted instructions do no harm, and removing all leaves exactly that memory |
| BreakpointManager.Perform | pyocd/debug/breakpoints/manager.py:48-171 | one event moves manager and target as the model says |
| BreakpointManager.NothingLost | pyocd/debug/breakpoints/manager.py:48-171 | in a session without a write over a planted instruction, memory as the user knows it is what the user's writes alone leave |
| BreakpointManager.CountIsSize | pyocd/coresight/fpb.py:90-91 | the used count is the number of addresses that have a comparator |

## Left out

- DapPrograms.RunProgram: `finalLog` is stated for programs without an error only; after an error the packets in flight
  have been executed as well.
- DapAccess.DapAccess.AbortAllTransfers: after a `ValueError` the drain is skipped on purpose in the source, so nothing
  is promised about the next response.
- CacheModel.CachedReadsAreTruthful: the target's memory changes only while the core is not halted, or in a step or a
  reset; other bus masters are not modelled.
- MemoryCache.MemoryCache.ReadMemoryBlock8: reads of the target succeed; so do those of `RegisterCache`.
- MemoryMap.GetRegionForAddress: the list of regions is given; adding and removing regions is not modelled.
- RttView.UpLink.AUpRead: the memory path only; the class tested for first, `RawTCPLink`, is not part of this model.
- MemoryInterface.EndToEnd: runs without transfer errors. What an exception does to the cached CSW is stated for
  `MemAp.MemoryAp.WriteReg` alone; packed address increment is not used by the driver, and its reads run their callbacks
  at once.
- ProbeSelect.RunProbe: runs without errors; what a failed flush leaves is in `ProbeFlush`, for programs that only
  queue.
- RegisterLists.FaithfulLists: a core on which the writes themselves succeed.
- BreakpointManager.RunSession: transfer errors are stated for the software provider alone, and the core does not change
  memory by itself.
- `RTTView.py` apart from the ring buffers: windows, plots, settings, text decoding and ELF files.
- USB backends, sockets, GDB server, AGDI, J-Link, Keil and OpenOCD drivers: I/O and foreign calls.
- `XLink` and its lock: it takes a non-reentrant lock twice; the memory write it wraps is what is modelled.
- Shared mode with Keil, where another master changes SELECT between the host's steps.
- `DWT` watchpoints, ELF used and unused ranges, `FlashReaderContext`, SWO, semihosting, ROM table discovery, vector
  catch, timeouts, delegates and the command line.
