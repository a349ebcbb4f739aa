# Verified model of the support libraries of the antenna controller

This project models the logic-bearing parts of the firmware and proves properties of them with
Dafny 4.11. `dafny verify dfyconfig.toml` checks everything. There is one module per source
component:

| file | models |
|---|---|
| `Lcg.dfy`, `LibMath.dfy`, `RandTasks.dfy` | the pseudo-random generator of `uCOS/uC-LIB/lib_math.c`: the number theory of its step, the module state, and tasks that share it |
| `CpuTimestamp.dfy`, `IntDisMeas.dfy`, `CntZeros.dfy` | `uCOS/uC-CPU/cpu_core.c`: timestamp extension, the interrupts-disabled meter, counting zeros |
| `BspSer.dfy`, `SerLock.dfy` | `BSP/src/bsp_ser.c`: line editor, echo, newline expansion, and tasks that share the line |
| `Nvic.dfy` | the priority helpers of `Lib/CMSIS/core_cm3.h` |
| `LibMem.dfy`, `LibDef.dfy` | byte order and range-check macros of `uCOS/uC-LIB` |
| `Protocol.dfy` | the UDP frame codec of `PROTOCOL/src/protocol_bsp.c` with its checksum from `APP/src/app_tool.c` |
| `Arith.dfy`, `Sequences.dfy`, `Wrappers.dfy` | words, shifts and divisibility by powers of two, defined bit by bit; byte sequences; `Option` |

State that the source updates in place is a class or an array with methods; each method is proved
against a function of the old state, and the theorems are lemmas about those functions. Runs of
several tasks are scripts: a script names, step by step, which task executes its next statement,
so a theorem over all scripts covers every interleaving.

## Assumptions

- `CPU_CHAR` is unsigned, as it is for ARM targets; the index of `BSP_Ser_RdStr` has that type.
- Disabling interrupts stops every other task until they are enabled again (single core).
- A semaphore wait that reports success has taken one count. A wait with timeout 0 blocks; what
  happens when a wait reports failure all the same is part of the serial lock model.
- The hardware timer shows true time modulo 2^w; the native leading-zero instruction counts
  leading zeros of the native word. Both are given by their contracts.
- In `PROTOCOL/src/protocol_bsp.c:91` the index is incremented and read in one statement without
  sequencing; the checksum is taken over the 2 + datalen bytes already written.
- In the meter's calibration the two timer values of each sample are inputs.
- `BSP_Ser_RdStr` is given a buffer of len + 1 cells: the code writes a NUL, and when full also a
  printable, to the cell with index len.

## Where the code does not do what its documentation says

- `DEF_CHK_VAL_MIN`, `DEF_CHK_VAL_MAX` and `DEF_CHK_VAL` promise the right verdict for all values
  above -2^(N-1) and up to 2^N - 1. An unsigned 0 against a negative value is judged wrongly
  (`LibDef.ZeroBelowMinusOne`); `LibDef.ChkValMinExactly`, `LibDef.ChkValMaxExactly` and
  `LibDef.ChkValExactly` say exactly when the verdict is right.
- `BSP_Ser_RdStr` takes a 16-bit length but indexes with 8 bits: from length 255 on, a printable
  at index 255 restarts the line (`BspSer.LongLineLost`). `BspSer.RefinesStackExactly` gives the
  exact condition, len <= 254.
- `BSP_Ser_RdStr` echoes characters that it drops; `BspSer.EchoAgreesExactly` says for every length
  and input exactly when screen and buffer agree, and by how much the cursor is off when not.
- `BSP_Ser_RdByte` and `BSP_Ser_WrByte` ignore a failed wait, unlike the string calls;
  `SerLock.LockCount` counts what that does to the lock, and `SerLock.WholeCallsExactly` says that
  outputs stay whole in every interleaving with n ignored waits exactly when n is 0.
- `CPU_IntDisMeasMaxCurReset` reads and zeroes in two critical regions, so a section that ends in
  between can escape every resettable reading; `IntDisMeas.ResetCoversExactly` says that nothing
  is lost, however the calls are timed, exactly when no section ends there.
- `PROTOCOL_RevFrame_Check` accepts frames shorter than their data length says
  (`Protocol.ShortFrameAccepted`, `Protocol.ShortFramesExactly`); `Protocol.AcceptedIsBuilt` says
  that what it accepts is a frame the builder can have made exactly when all of it was received.

## Model

| member | source | states |
|---|---|---|
| LibMath.RandSeedIsExact | uCOS/uC-LIB/lib_math.c:274-282 | the wrapping 32-bit expression equals (1103515245 * seed + 12345) modulo 2^31 over the integers for every seed, and stays in [0, RAND_LCG_PARAM_M] |
| Lcg.FullPeriod | uCOS/uC-LIB/lib_math.h:158-171 | for every 2^k, a = 1 mod 4 and c odd, the generator is back at its start after n steps iff 2^k divides n |
| Lcg.FullPeriodExactly | uCOS/uC-LIB/lib_math.h:169-171 | for k >= 2 these parameters are the only ones with full period |
| Lcg.SumDivisible | uCOS/uC-LIB/lib_math.h:158-171 | 2^k divides 1 + a + ... + a^(n-1) iff it divides n, the step that makes the period full |
| Lcg.OrbitCoincides | uCOS/uC-LIB/lib_math.c:274-282 | two positions of an orbit are congruent modulo 2^k iff 2^k divides their distance |
| Lcg.Reaches | uCOS/uC-LIB/lib_math.c:274-282 | every residue is reached from every start in fewer than 2^k steps |
| LibMath.RandFullPeriod | uCOS/uC-LIB/lib_math.c:274-282 | from every seed in range, the source's generator returns to it after n draws iff 2^31 divides n |
| LibMath.EveryValueOnce | uCOS/uC-LIB/lib_math.c:274-282 | the first 2^31 draws after any 32-bit seed produce every value of the range exactly once |
| LibMath.NoRepeat | uCOS/uC-LIB/lib_math.c:216-230 | equal draws less than 2^31 draws apart are the same draw |
| LibMath.SameSequence | uCOS/uC-LIB/lib_math.c:274-282 | two seeds give the same n-th draw iff they agree modulo 2^31 |
| LibMath.LowBitsPeriod | uCOS/uC-LIB/lib_math.c:274-282 | for k <= 31 the low k bits of two draws agree iff 2^k divides their distance |
| LibMath.LowBitsGenerator | uCOS/uC-LIB/lib_math.c:274-282 | the low k bits are a generator of their own that never looks at higher bits |
| LibMath.RandState.Init | uCOS/uC-LIB/lib_math.c:146-149 | the seed starts at 1 |
| LibMath.RandState.SetSeed | uCOS/uC-LIB/lib_math.c:175-183 | the argument becomes the seed |
| LibMath.RandState.Rand | uCOS/uC-LIB/lib_math.c:216-230 | returns the exact generator's successor of the seed and keeps it as the new seed |
| RandTasks.EveryInterleavingIsSequential | uCOS/uC-LIB/lib_math.c:175-230 | in every interleaving the results are those of the script's own calls made one after the other in the order they leave: a reseeding leaves its own argument, a draw the generator's successor of the seed before it |
| RandTasks.AloneCompletes | uCOS/uC-LIB/lib_math.c:175-230 | with no call running any task can make any call, which has exactly that effect |
| RandTasks.NeverStuck | uCOS/uC-LIB/lib_math.c:175-230 | in every interleaving the call inside can go on, and with none inside any can begin |
| RandTasks.DrawsNeverRepeat | uCOS/uC-LIB/lib_math.c:216-230 | with no reseeding the tasks together draw f(s), f(f(s)), ..., and no value twice within 2^31 calls |
| RandTasks.UnguardedDrawsRepeat | uCOS/uC-LIB/lib_math.c:203-211 | without the critical sections some interleaving hands out one number twice, from every seed |
| CpuTimestamp.StampIsElapsedLessMissed | uCOS/uC-CPU/cpu_core.c:449-475 | after any mix of calls the timestamp is the true elapsed time less 2^w per missed timer wrap, modulo its own width, for every timer width |
| CpuTimestamp.NoneMissed | uCOS/uC-CPU/cpu_core.c:571-575 | no wrap is missed iff successive updates are less than 2^w ticks apart |
| CpuTimestamp.StampIsElapsed | uCOS/uC-CPU/cpu_core.c:531-557 | updated in time, the timestamp is the true elapsed time modulo 2^32 or 2^64 |
| CpuTimestamp.StampRightExactly | uCOS/uC-CPU/cpu_core.c:571-575 | the timestamp is right iff 2^(size - w) divides the number of missed wraps |
| CpuTimestamp.Timestamps.constructor | uCOS/uC-CPU/cpu_core.c:2133-2170 | initialisation starts an empty run with both accumulators at zero elapsed time |
| CpuTimestamp.Timestamps.Get32 | uCOS/uC-CPU/cpu_core.c:450-475 | returns true time less missed wraps for a narrow timer, the timer cut to 32 bits for a wide one, and touches only the 32-bit timestamp |
| CpuTimestamp.Timestamps.Get64 | uCOS/uC-CPU/cpu_core.c:532-557 | the same for 64 bits |
| CpuTimestamp.Timestamps.Update | uCOS/uC-CPU/cpu_core.c:587-598 | updates exactly the timestamps that are wider than the timer |
| IntDisMeas.NestIsDepth | uCOS/uC-CPU/cpu_core.c:837-844 | in every run the nest counter is the nesting depth modulo 2^16 |
| IntDisMeas.OutermostCounts | uCOS/uC-CPU/cpu_core.c:837-844 | an enter takes the start time iff 2^16 divides the depth before it, an exit the stop time iff 2^16 divides the depth after it, so below depth 2^16 only the outermost ones do; nothing else touches these times |
| IntDisMeas.OverheadStays | uCOS/uC-CPU/cpu_core.c:1024-1044 | no run changes the calibrated overhead, and the start counter counts the enters modulo 2^16 |
| IntDisMeas.MeterMeasures | uCOS/uC-CPU/cpu_core.c:1024-1044 | after any bracketed run the non-resettable maximum is the longest completed outermost section, the resettable one the longest that ended since the last zeroing and never larger |
| IntDisMeas.ShortSectionsExact | uCOS/uC-CPU/cpu_core.c:1001-1012 | sections shorter than the timer's period are measured exactly, across its wrap too |
| IntDisMeas.ResetCoversExactly | uCOS/uC-CPU/cpu_core.c:714-727 | the readings around a reset cover every section, whenever the calls happen, iff no section ends between the reset's halves |
| IntDisMeas.ResetCovers | uCOS/uC-CPU/cpu_core.c:714-727 | a section is covered by the value a reset returns or by later resettable readings unless it ends between the reset's halves, and always by the non-resettable maximum |
| IntDisMeas.ResetLosesSection | uCOS/uC-CPU/cpu_core.c:714-727 | in any bracketed run, any section that ends between the halves escapes every resettable reading when the calls are timed so, while the non-resettable maximum has it |
| IntDisMeas.ReadersMonotone | uCOS/uC-CPU/cpu_core.c:2347-2361 | readers return the raw maximum less the overhead, not below zero, in the order of the raw maxima |
| IntDisMeas.IntDisMeter.MeasStart | uCOS/uC-CPU/cpu_core.c:837-844 | keeps the meter equal to the run with this enter appended |
| IntDisMeas.IntDisMeter.MeasStop | uCOS/uC-CPU/cpu_core.c:1024-1044 | keeps the meter equal to the run with this exit appended |
| IntDisMeas.IntDisMeter.MaxGet | uCOS/uC-CPU/cpu_core.c:799-812 | returns the longest section of the whole run less the overhead calibrated before it |
| IntDisMeas.IntDisMeter.MaxCurGet | uCOS/uC-CPU/cpu_core.c:756-769 | returns the longest section since the last reset less the overhead calibrated before the run |
| IntDisMeas.IntDisMeter.MaxCurReset | uCOS/uC-CPU/cpu_core.c:714-727 | returns the longest section up to its first half less the overhead, and zeroes the resettable maximum after whatever calls happen between its halves |
| IntDisMeas.IntDisMeter.MeasInit | uCOS/uC-CPU/cpu_core.c:2213-2244 | leaves an idle meter whose start counter has advanced by N, whose start and stop times are those of the last sample and whose overhead comes from the sum of the N samples |
| IntDisMeas.OverheadIsMean | uCOS/uC-CPU/cpu_core.c:2229-2240 | the overhead is the mean of the samples rounded to nearest iff their sum fits the timer type, for types of 32 bits and more even with N/2 added |
| IntDisMeas.SumOfSamples | uCOS/uC-CPU/cpu_core.c:2229-2234 | the sum takes every sample once, with the time from its start to its stop |
| IntDisMeas.EqualSamples | uCOS/uC-CPU/cpu_core.c:2229-2240 | when every start and stop takes d ticks the overhead is d |
| CntZeros.TableEntry | uCOS/uC-CPU/cpu_core.c:96-114 | every table entry is the number of leading zeros of its 8-bit index |
| CntZeros.LeadZerosRight | uCOS/uC-CPU/cpu_core.c:1210-1514 | at 8, 16, 32 and 64 bits the tiered lookup returns n with 2^(W-1-n) <= val < 2^(W-n), and W for 0 |
| CntZeros.NativeFormAgrees | uCOS/uC-CPU/cpu_core.c:1291-1295 | any native count less the difference in width equals the tiered lookup, at every width |
| CntZeros.LowestBit | uCOS/uC-CPU/cpu_core.c:1641-1641 | val & (~val + 1) is the largest power of two that divides val, at every width |
| CntZeros.TrailZerosRight | uCOS/uC-CPU/cpu_core.c:1722-2067 | the trailing-zero count t has 2^t dividing val and 2^(t+1) not, and is W for 0 |
| CntZeros.TrailZerosAreReversedLeadZeros | uCOS/uC-CPU/cpu_core.c:1628-1649 | the trailing zeros are the leading zeros of the bit-reversed word |
| BspSer.RdStr | BSP/src/bsp_ser.c:342-395 | up to the first line end, buffer and echo are those of the editor's step function; a failed wait only clears cell 0 |
| BspSer.RdStrRefinesStack | BSP/src/bsp_ser.c:345-392 | for len <= 254 the string read is the fold of the input over a stack of capacity len, and cells past len keep their values |
| BspSer.FinishedCells | BSP/src/bsp_ser.c:345-392 | for len <= 254 what every cell of the buffer holds: the string, NULs where characters were erased, the last dropped character behind a full line, and else what was there |
| BspSer.LongLineLost | BSP/src/bsp_ser.c:384-391 | for len >= 255 a line of 256 printables reads back empty |
| BspSer.LongLineRead | BSP/src/bsp_ser.c:384-391 | for len >= 255 the string read is what the terminal shows less 256 characters for every wrap of the index |
| BspSer.RefinesStackExactly | BSP/src/bsp_ser.c:342-395 | the string read is the stack for every input iff len <= 254 |
| BspSer.EchoDraws | BSP/src/bsp_ser.c:373-387 | replayed on a terminal the echo draws every printable less the erased ones, with the cursor behind them and blanks after |
| BspSer.EchoAgreesExactly | BSP/src/bsp_ser.c:359-392 | for every length and input the terminal shows exactly the buffer iff no printable arrived at the index's end (len, or 255 if that is less); each one that did puts the cursor 1 column ahead, or 256 where the index wraps |
| BspSer.EchoShowsStack | BSP/src/bsp_ser.c:359-392 | for len <= 254 the terminal shows exactly the stack iff the stack dropped nothing |
| BspSer.WrStr | BSP/src/bsp_ser.c:468-490 | sends the NUL-terminated string with every LF as CR LF, and nothing when the wait fails |
| BspSer.CollapseExpand | BSP/src/bsp_ser.c:478-487 | replacing CR LF by LF recovers the string sent, whatever CRs it contains |
| BspSer.SentStreams | BSP/src/bsp_ser.c:478-487 | a stream can be sent iff every LF in it follows a CR |
| SerLock.LockCount | BSP/src/bsp_ser.c:136-138 | in every interleaving lock count plus holders is 1 plus the number of byte calls that ignored a failed wait |
| SerLock.EveryCallIsServed | BSP/src/bsp_ser.c:275-490 | in every interleaving, ignored waits or not, the completed calls are those begun, in the order of release, each with the bytes brought to it, and the bytes its own sends transmitted are its whole output; only a string call whose wait fails ends otherwise |
| SerLock.CallsTakeTheirInput | BSP/src/bsp_ser.c:275-357 | in every interleaving a completed byte read has taken one byte, a string read the bytes up to the first CR or LF, a write none |
| SerLock.NeverStuck | BSP/src/bsp_ser.c:275-490 | which steps a task can take: a waiting task acquires iff the count is not 0, and on failure a string call gives up and a byte call carries on; a working one has exactly one kind of step |
| SerLock.AloneCompletes | BSP/src/bsp_ser.c:275-490 | with the lock free any idle task can make any call with any input it can receive, which adds its whole output and leaves the lock free |
| SerLock.StreamIsWholeCalls | BSP/src/bsp_ser.c:342-395 | without such calls the transmitted stream is the whole outputs of the calls in lock order, then a prefix of the holder's output |
| SerLock.CompletedRead | BSP/src/bsp_ser.c:342-395 | a completed string read contributes exactly the echo of the line editor on its input |
| SerLock.CompletedWrite | BSP/src/bsp_ser.c:442-490 | a string write contributes its text with every LF expanded to CR LF, a byte write its byte, a byte read nothing |
| SerLock.IgnoredWaitsMixBytes | BSP/src/bsp_ser.c:442-449 | for every number of ignored waits but 0, some interleaving completes all calls with a stream that no order of their whole outputs makes |
| SerLock.WholeCallsExactly | BSP/src/bsp_ser.c:442-449 | the stream is whole in every interleaving with n ignored waits iff n is 0 |
| Nvic.WidthsSum | Lib/CMSIS/core_cm3.h:1063-1064 | for every group and 1 to 8 implemented bits the two field widths sum to the implemented bits |
| Nvic.WidthsAre | Lib/CMSIS/core_cm3.h:1059-1064 | the two field widths as functions of the low three bits of the group and the implemented bits |
| Nvic.DecodeEncode | Lib/CMSIS/core_cm3.h:1057-1098 | decoding an encoded priority returns both fields reduced to their widths |
| Nvic.EncodeDecode | Lib/CMSIS/core_cm3.h:1057-1098 | encoding a decoded priority is the identity on the implemented bits |
| Nvic.EncodedOrder | Lib/CMSIS/core_cm3.h:1057-1070 | encoded priorities are ordered by pre-emption first, then by sub priority |
| Nvic.EncodedFits | Lib/CMSIS/core_cm3.h:1057-1070 | an encoded priority fits the implemented bits |
| Nvic.PackedSurvives | Lib/CMSIS/core_cm3.h:1012-1040 | a packed priority read back from its register decodes to the same fields |
| Nvic.RegistersOrdered | Lib/CMSIS/core_cm3.h:1012-1070 | the registers of packed priorities compare by pre-emption first, then by sub priority |
| Nvic.BinaryPoint | Lib/CMSIS/core_cm3.h:1057-1098 | two priorities decode to the same pre-emption field iff their registers agree above bit group mod 8 (section B3.4 of the ARMv7-M Architecture Reference Manual) |
| Nvic.Registers.SetPriority | Lib/CMSIS/core_cm3.h:1012-1018 | puts the low implemented bits in the upper bits of one interrupt's register, zeros below, and leaves every other external or system register unchanged |
| Nvic.Registers.GetPriority | Lib/CMSIS/core_cm3.h:1033-1040 | returns the priority last held by that interrupt's register |
| Nvic.HandlerIndexInRange | Lib/CMSIS/core_cm3.h:1015-1015 | the masked index of system exceptions -12 to -1 is 0 to 11, one register each |
| LibMem.CopyReversing | uCOS/uC-LIB/lib_mem.h:917-928 | the down-counting loop reverses the bytes for every size, stays in range although the counter wraps, and writes nothing else |
| LibMem.CopyGetIntU | uCOS/uC-LIB/lib_mem.h:886-937 | on a host of either order the destination has, for the host, the value the source has in its order |
| LibMem.CopyKeepsValue | uCOS/uC-LIB/lib_mem.h:886-937 | copying keeps the value, for every pair of orders and every size |
| LibMem.CopyTwiceRestores | uCOS/uC-LIB/lib_mem.h:860-865 | copying twice restores the bytes |
| LibMem.GetIsValue16 | uCOS/uC-LIB/lib_mem.h:529-542 | the 16-bit get macros decode the value of the bytes in their order |
| LibMem.GetIsValue32 | uCOS/uC-LIB/lib_mem.h:532-547 | the same for 32 bits |
| LibMem.SetGet16 | uCOS/uC-LIB/lib_mem.h:627-640 | get after set is the identity on 16-bit values, in either order |
| LibMem.SetGet32 | uCOS/uC-LIB/lib_mem.h:630-645 | the same for 32 bits |
| LibMem.GetSet16 | uCOS/uC-LIB/lib_mem.h:529-640 | set after get restores both bytes, in either order |
| LibMem.GetSet32 | uCOS/uC-LIB/lib_mem.h:532-645 | the same for four bytes |
| LibMem.SetInt32U | uCOS/uC-LIB/lib_mem.h:630-645 | writes four cells that hold the value in the given order, and no other cell |
| LibMem.SetThenCopy16 | uCOS/uC-LIB/lib_mem.h:886-937 | copying what the set macro wrote to host order is what the host's own set macro writes |
| LibMem.SetThenCopy32 | uCOS/uC-LIB/lib_mem.h:886-937 | the same for 32 bits |
| LibMem.SwapIsReencode | uCOS/uC-LIB/lib_mem.h:415-421 | the swap macros equal encoding in one order and decoding in the other |
| LibMem.SwapTwice | uCOS/uC-LIB/lib_mem.h:415-421 | the swap macros are involutions |
| LibDef.ChkValMinExactly | uCOS/uC-LIB/lib_def.h:1052-1054 | the minimum check gives the integer verdict iff no unsigned 0 meets a negative value, for every word width |
| LibDef.ChkValMaxExactly | uCOS/uC-LIB/lib_def.h:1102-1104 | the same for the maximum check |
| LibDef.ChkValExactly | uCOS/uC-LIB/lib_def.h:1156-1157 | the operands for which the range check is wrong, exactly, including where two errors cancel |
| LibDef.ZeroBelowMinusOne | uCOS/uC-LIB/lib_def.h:1024-1049 | unsigned 0 fails the check against minimum -1 at every word width |
| Protocol.CheckSum8BitGet | APP/src/app_tool.c:20-30 | returns the 8-bit sum of the first len bytes |
| Protocol.SumConcat | APP/src/app_tool.c:20-30 | the sum of a concatenation is the sum of the sums modulo 256, and of one byte that byte |
| Protocol.FrameParts | PROTOCOL/src/protocol_bsp.c:87-92 | where head, data length, data, sum and end byte stand in a frame |
| Protocol.Link.TxFrameGet | PROTOCOL/src/protocol_bsp.c:83-95 | fills the buffer with the built frame of datalen + 4 bytes and changes nothing behind it |
| Protocol.Link.RevFrameCheck | PROTOCOL/src/protocol_bsp.c:45-71 | the verdict, and the frame record changed on success only |
| Protocol.BuiltIsAccepted | PROTOCOL/src/protocol_bsp.c:45-95 | every built frame is accepted, whatever bytes follow, and recorded with its own head, data length, sum and end byte |
| Protocol.VerdictIsLocal | PROTOCOL/src/protocol_bsp.c:54-55 | verdict and record depend on no byte past datalen + 4 or the received length, whichever is less, for every reception |
| Protocol.AcceptedForm | PROTOCOL/src/protocol_bsp.c:45-71 | everything accepted: frames around any bytes whether or not the data length agrees, and one three-byte frame |
| Protocol.AcceptedIsBuilt | PROTOCOL/src/protocol_bsp.c:45-71 | what the checker looks at is a frame the builder can have made iff it is accepted and at least datalen + 4 bytes came |
| Protocol.ShortFrameAccepted | PROTOCOL/src/protocol_bsp.c:54-62 | every well-formed frame around fewer bytes than its data length says is accepted, and the builder makes none of these |
| Protocol.ShortFramesExactly | PROTOCOL/src/protocol_bsp.c:54-62 | some reception of len < datalen + 4 bytes is accepted iff len >= 4, or len is 3 and datalen equals the head byte |
| Protocol.OneByteChanged | PROTOCOL/src/protocol_bsp.c:57-62 | a built frame with one byte changed, whatever follows it, is accepted iff the change makes the checker look at a frame of another length and that one happens to be well formed |

## Left out

- UART, DMA, I2C, GPIO, FSMC and LCD registers, pin tables and the LED, buzzer and flash drivers: hardware effects with no logic.
- `BSP/src/bsp_ioe.c`, shell commands, application hooks and interrupt dispatch: straight-line code or single table lookups.
- uC/OS-III, lwIP, memory pools, string functions and the application command handlers: not part of this model.
- The 10-tick timeout of the transmit wait and the single-slot receive race of the UART interrupt: replaced by an input script and an output log.
- The host name functions and timer frequency accessors of `cpu_core.c`: a copy and a plain variable.
- The 16-bit-CPU form of the swap macros: only the form compiled for 32- and 64-bit CPUs is modelled.
- The fixed-size copy macros and the set-copy macros: instances or aliases of the loops modelled.
- Overlapping source and destination of the copy loops: the source leaves them undefined.
- LibMem.SetInt32U: the 8- and 16-bit set macros are modelled as values only, since they differ in the number of cells.
- `PROTOCOL_RevFframe_Get` and `PROTOCOL_PCcomm_Deal`: a copy and three calls.
- Protocol.Link.RevFrameCheck: states no payload round trip, since the checker points its data one byte past where the builder puts it; a received length of 0 is excluded where the first byte is the head, since the code then reads before the buffer.
- Nvic.Registers.SetPriority: system exceptions below -12 have no priority register and are excluded.
