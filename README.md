# STM32 I2C master driver, modelled in Dafny

This project models the STM32 I2C master driver of the phabos kernel,
`drivers/i2c/stm32-i2c.c`, and proves properties of it. The driver has
three parts, and the model follows them.

- **Timing configurator** (`stm32_i2c_set_freq`). It saves and clears CR1,
  rejects a frequency above the fast-mode ceiling with `-EINVAL`, and
  otherwise writes the clock-control value (speed-grade bit OR
  `clk / (freq * 3)`) to CCR and the rise time to TRISE. In every case it
  writes the saved CR1 back.
- **Transfer engine** (`stm32_i2c_transfer` and its helpers). It runs an
  ordered list of messages. Each message gets:
  - a (repeated) start condition;
  - the address byte and the SR1 error check;
  - a data phase. A read fills the buffer from DR. A write spins on TXE
    before each DR write.

  The first error flag ends the loop with `-EIO`. A stop condition is then
  issued and the adapter mutex released.
- **Device surface** (`open`, `close`, `ioctl`). `open` checks the
  platform data and allocates the private block, then programs CR2,
  configures standard mode and enables the controller. `close` disables
  the controller. `ioctl` dispatches and returns 0.

The files:

- `registers.dfy` (modules `Errno` and `I2cRegisters`)
  - the register offsets and bit masks of the source;
  - the value `Hw`: a register file, the ordered trace of every register
    access, and the values the hardware will deliver on its next SR1 and
    DR reads. The hardware's answers are inputs supplied by the caller.
- `timing.dfy` (module `I2cTiming`): the CCR/TRISE arithmetic and
  `SetFreq`, the register effect of `stm32_i2c_set_freq` as a function.
- `transfer.dfy` (module `I2cTransfer`)
  - each phase of a message as a function of the hardware value;
  - the message loop (`Loop`) and the whole transfer (`Transfer`) over a
    `State`. A `State` holds the hardware, the caller's buffers (keyed by
    buffer identity, so two messages may share a buffer), the
    interrupts-enabled flag and the mutex flag;
  - the lemmas about all of these.
- `controller.dfy` (module `Stm32I2c`): class `Controller`. Its fields are
  the register file, the trace, the two hardware feeds, the private
  allocation, and ghost flags for the mutex and interrupt enable. Each C
  function is a method with the same steps and loops. Each method is
  proved to produce exactly the state the matching function of
  `I2cTiming`/`I2cTransfer` describes.

The hidden header constants are taken as the standard I2C values:

- `I2C_STDMODE_MAX_FREQ` = 100000;
- `I2C_FASTMODE_MAX_FREQ` = 400000;
- `EIO`, `ENOMEM`, `EINVAL` = 5, 12, 22.

`phabos/i2c.h` and `phabos/i2c/stm32-i2c.h` are not part of this model. An
`i2c_msg` is taken to hold a 16-bit address, a read flag, a length and a
`uint8_t` buffer. That is why a DR read is truncated to its low byte.

The behaviour is modelled as the code is written:

- `ioctl` discards the result of the call it dispatches and returns 0.
- `stm32_i2c_send` returns after an address error without re-enabling
  interrupts, which `StepWrite` makes visible.
- A TXE wait whose status values run out without TXE is a wait the source
  never leaves. It is modelled as the outcome `SpinsForever`.

## Model

| member | source | states |
|---|---|---|
| I2cRegisters.ErrorMaskFlags | drivers/i2c/stm32-i2c.c:26-48 | each of BERR, ARLO, AF, OVR, PECERR and TIMEOUT alone is an error under the SR1 error mask; the event flags SB, ADDR, BTF, RXE and TXE are not |
| I2cRegisters.HasError | drivers/i2c/stm32-i2c.c:218 | the `sr1 & SR1_ERROR_MASK` test (also at :244 and :264) holds exactly when one of BERR, ARLO, AF, OVR, PECERR and TIMEOUT is set |
| I2cRegisters.TxeSet | drivers/i2c/stm32-i2c.c:304 | the `sr1 & I2C_SR1_TXE` test holds exactly when bit 7 of SR1 is set |
| I2cTiming.ClockDivider | drivers/i2c/stm32-i2c.c:118 | the divider is floor(clk / (3 freq)): d * 3freq <= clk < (d + 1) * 3freq, and d <= clk |
| I2cTiming.CcrDivider | drivers/i2c/stm32-i2c.c:115-118 | the duty-cycle formula is dead (its guard is conjoined with 0), so the divider field is always the plain count clk / (3 freq) |
| I2cTiming.DutyCount | drivers/i2c/stm32-i2c.c:116 | the count of the duty-cycle formula is floor(clk / (25 freq)) |
| I2cTiming.DutyCycleDivider | drivers/i2c/stm32-i2c.c:116 | the disabled duty-cycle value always has the DUTY bit set, and every other bit is the count clk / (25 freq) |
| I2cTiming.SpeedGrade | drivers/i2c/stm32-i2c.c:111-113 | the fast-mode bit is chosen exactly when freq exceeds the standard-mode ceiling, the standard-mode value (0) exactly otherwise |
| I2cTiming.CcrValue | drivers/i2c/stm32-i2c.c:110-120 | the value written to CCR is the speed-grade bit OR the plain divider count |
| I2cTiming.CcrFields | drivers/i2c/stm32-i2c.c:110-120 | when the count fits below bit 14, CCR has the DUTY bit clear, the fast-mode bit set iff freq > standard ceiling, and the count in its low 14 bits. The hypothesis is needed: the source does not bound the count (see the two lemmas below) |
| I2cTiming.SlowCountSetsDuty | drivers/i2c/stm32-i2c.c:118-120 | nothing bounds the count: at 500 Hz on a 42 MHz clock CCR is 0x6d60, whose DUTY bit is set |
| I2cTiming.SlowCountSetsFastMode | drivers/i2c/stm32-i2c.c:111-120 | at 400 Hz on a 42 MHz clock the speed grade is standard mode, yet CCR is 0x88b8, whose fast-mode bit is set |
| I2cTiming.RiseCycles | drivers/i2c/stm32-i2c.c:123-126 | clk / invT + 1 is the smallest n with clk < n * invT, and fits 32 bits |
| I2cTiming.RiseTime | drivers/i2c/stm32-i2c.c:123-126 | TRISE is the rise-cycle count for 300 ns (1/3333333 s) above the fast-mode ceiling and for 1000 ns otherwise |
| I2cTiming.StdRiseTime | drivers/i2c/stm32-i2c.c:123-126 | the standard-mode rise time is the rise time of every frequency up to the fast-mode ceiling (the fast branch is unreachable after the check), and is the rise-cycle count for 1000 ns |
| I2cTiming.SetFreq | drivers/i2c/stm32-i2c.c:90-133 | returns -EINVAL iff freq > fast ceiling, else 0. On rejection it reads CR1, clears it and restores it, and writes no other register. On acceptance the exact five-access trace; CCR = speed OR clk/(3 freq); TRISE = clk/1000000 + 1 (the fast-mode rise time is unreachable); no other register changes. CR1 ends as it was on entry, and the SR1/DR feeds are untouched |
| I2cTiming.BoardClockAt100kHz | arch/arm/mach-stm32/board-bdb1b.c:21 | with the board's 42 MHz APB1 clock at 100 kHz, CCR = 140 and TRISE = 43 |
| I2cTiming.BoardClockAt400kHz | arch/arm/mach-stm32/board-bdb1b.c:21 | with the same clock at 400 kHz, CCR = FASTMODE OR 35 and TRISE = 43 |
| I2cTransfer.AddressByte | drivers/i2c/stm32-i2c.c:240-260 | the address byte shifted right by one is the address; bit 0 is 1 for a read and 0 for a write |
| I2cTransfer.LowByte | drivers/i2c/stm32-i2c.c:284 | storing a DR value in a `uint8_t` keeps its low eight bits: the value is its upper bits followed by the stored byte |
| I2cTransfer.StartCondition | drivers/i2c/stm32-i2c.c:206-223 | writes PE OR START to CR1 and reads SR1; the code is -EIO exactly when that SR1 value has an error flag; one SR1 value consumed |
| I2cTransfer.StopCondition | drivers/i2c/stm32-i2c.c:225-230 | appends exactly the CR1 write of PE OR STOP; CR1 holds PE OR STOP; no other register changes |
| I2cTransfer.AddressPhase | drivers/i2c/stm32-i2c.c:232-271 | writes the byte to DR and reads SR1; -EIO exactly on an error flag; SR2 is read only when the check passed |
| I2cTransfer.RecvData | drivers/i2c/stm32-i2c.c:283-284 | the read loop yields exactly n bytes, only appends to the trace, and writes no register |
| I2cTransfer.RecvDataSnoc | drivers/i2c/stm32-i2c.c:283-284 | n + 1 reads are n reads followed by one more DR read whose low byte is appended last (the loop's order) |
| I2cTransfer.RecvDataReads | drivers/i2c/stm32-i2c.c:283-284 | the read loop makes exactly n accesses, the k-th being the DR read of the k-th delivered value |
| I2cTransfer.RecvDataConsumes | drivers/i2c/stm32-i2c.c:283-284 | the read loop consumes exactly the n values it reads |
| I2cTransfer.RecvDataBytes | drivers/i2c/stm32-i2c.c:283-284 | byte k of the result is the low byte of the k-th value delivered by DR |
| I2cTransfer.WaitTxe | drivers/i2c/stm32-i2c.c:304-305 | the TXE spin appends to the trace and changes no register and no DR value |
| I2cTransfer.WaitTxeReads | drivers/i2c/stm32-i2c.c:304-305 | the spin reads the status values in order from the first and consumes exactly those it read |
| I2cTransfer.WaitTxeEnds | drivers/i2c/stm32-i2c.c:304-305 | the spin stops at the first status value with TXE set; it never ends exactly when no value has TXE, after reading them all |
| I2cTransfer.WaitTxePaced | drivers/i2c/stm32-i2c.c:304-306 | the spin's accesses are SR1 reads only, and when it ends a DR write may follow it paced |
| I2cTransfer.SendData | drivers/i2c/stm32-i2c.c:303-307 | the write loop appends to the trace, changes no register but DR, and leaves the DR feed alone |
| I2cTransfer.SendDataPaced | drivers/i2c/stm32-i2c.c:303-307 | every DR write comes right after an SR1 read with TXE set. On completion the DR writes are the data bytes in order; if a wait never ends, the bytes written so far are a proper prefix of the data |
| I2cTransfer.RecvPhase | drivers/i2c/stm32-i2c.c:273-287 | the read message after its start only appends to the trace, changes no register but DR, and on success yields exactly length bytes |
| I2cTransfer.SendPhase | drivers/i2c/stm32-i2c.c:289-312 | the write message after its start only appends to the trace and changes no register but DR |
| I2cTransfer.StepMsg | drivers/i2c/stm32-i2c.c:329-340 | one loop turn keeps every buffer and its length |
| I2cTransfer.StepCodes | drivers/i2c/stm32-i2c.c:329-340 | one message ends in 0, in a wait that never ends (writes only), or in -EIO; -EIO exactly when the start's or the address's SR1 value has an error flag |
| I2cTransfer.StepFrame | drivers/i2c/stm32-i2c.c:329-340 | one message only appends to the trace, changes no register but CR1 and DR, and leaves the mutex flag alone |
| I2cTransfer.StepParts | drivers/i2c/stm32-i2c.c:206-271 | the accesses of start and address phase in order: CR1 write, SR1 read, address-byte write, SR1 read, then the SR2 read only when no error |
| I2cTransfer.StartSince | drivers/i2c/stm32-i2c.c:206-223 | the start condition makes exactly its two accesses and leaves the next status value and SR2 to what follows |
| I2cTransfer.AddressSince | drivers/i2c/stm32-i2c.c:232-271 | the address phase makes exactly the byte write, the SR1 read and, without error, the SR2 read |
| I2cTransfer.StepStartFails | drivers/i2c/stm32-i2c.c:329-332 | a start that sees an error flag makes only its two accesses, returns -EIO and keeps buffers and interrupt state |
| I2cTransfer.StepAddressFails | drivers/i2c/stm32-i2c.c:330-340 | an address check that sees an error flag ends the message after exactly four accesses (no SR2 read, no data) with -EIO and unchanged buffers |
| I2cTransfer.StepHeader | drivers/i2c/stm32-i2c.c:330-337 | a message whose checks pass begins with the five protocol accesses, SR2 read last |
| I2cTransfer.StepReadKeeps | drivers/i2c/stm32-i2c.c:334-335 | a read message keeps the interrupt state and every other buffer, and on failure its own buffer too |
| I2cTransfer.StepReadFills | drivers/i2c/stm32-i2c.c:283-284 | a completed read leaves the low bytes of the next length DR values in buffer[0..length) and every later byte as it was |
| I2cTransfer.RecvPhaseTrace | drivers/i2c/stm32-i2c.c:279-284 | a completed read phase makes exactly its three address accesses and then length DR reads of the delivered values |
| I2cTransfer.StepReadTrace | drivers/i2c/stm32-i2c.c:330-335 | a completed read message makes exactly 5 + length accesses, the last length being DR reads of the delivered values in order |
| I2cTransfer.StepWrite | drivers/i2c/stm32-i2c.c:289-312 | a write message changes no buffer. After a failed start interrupts are as before, otherwise on exactly when the message completed (the address-error path leaves them off). After the five protocol accesses the data phase is paced by TXE, and on success its DR writes are buffer[0..length) in order |
| I2cTransfer.Loop | drivers/i2c/stm32-i2c.c:329-341 | the loop keeps every buffer and its length |
| I2cTransfer.LoopStep | drivers/i2c/stm32-i2c.c:329-341 | the loop from message i is message i's step, followed by the loop from i + 1 exactly when that step returned 0 |
| I2cTransfer.LoopOutcome | drivers/i2c/stm32-i2c.c:329-341 | the loop ends in 0, -EIO or a wait that never ends; it only appends to the trace, changes no register but CR1 and DR, and keeps the mutex flag |
| I2cTransfer.LoopSplit | drivers/i2c/stm32-i2c.c:329-341 | messages run in index order: the loop over a list is the loop over a prefix, then, if that completed, the loop over the rest |
| I2cTransfer.ErrorEndsLoop | drivers/i2c/stm32-i2c.c:329-341 | when messages before k completed and message k's start or address check sees an error flag, the loop's result is message k's step: -EIO, with no activity for later messages |
| I2cTransfer.CompletedLoopRanAll | drivers/i2c/stm32-i2c.c:329-341 | a loop returning 0 ran every message to completion, each with error-free start and address checks |
| I2cTransfer.Transfer | drivers/i2c/stm32-i2c.c:314-350 | the transfer keeps every buffer and its length |
| I2cTransfer.TransferOutcome | drivers/i2c/stm32-i2c.c:314-350 | an empty list returns 0 and changes nothing. Otherwise, on every return, the last access is the CR1 write of PE OR STOP, CR1 holds it and the mutex is released. The code is 0 or -EIO, and only appending to the trace and CR1/DR change |
| I2cTransfer.StartErrorAborts | drivers/i2c/stm32-i2c.c:327-349 | an error flag at the first start yields -EIO after exactly start, SR1 read and stop, with the mutex released |
| I2cTransfer.ErrorAbortsTransfer | drivers/i2c/stm32-i2c.c:327-349 | when messages before k completed and message k's start or address check sees an error flag, the transfer returns -EIO; after the prefix's accesses come message k's two or four accesses, then the PE OR STOP write; message k changes no buffer and the mutex is released |
| I2cTransfer.TransferUnfolds | drivers/i2c/stm32-i2c.c:322-349 | a non-empty transfer is the loop under the mutex, then, unless a wait never ended, the stop condition and the unlock |
| I2cTransfer.ZeroLengthWrite | drivers/i2c/stm32-i2c.c:314-350 | one zero-length write with clean checks: exactly start, SR1 read, address byte, SR1 read, SR2 read, stop; returns 0 with interrupts on and the mutex free |
| Stm32I2c.Cr2Value | drivers/i2c/stm32-i2c.c:174-175 | the CR2 value always has both interrupt enables set, and every other bit is the clock count in MHz |
| Stm32I2c.Cr2Fields | drivers/i2c/stm32-i2c.c:173-175 | below 64 MHz CR2's frequency field is the clock in MHz and both interrupt enables are set |
| Stm32I2c.OpenRegisters | drivers/i2c/stm32-i2c.c:169-180 | the exact eight-access trace of a successful open (CR1 clear, CR2, the standard-mode set_freq, CR1 = PE); the feeds are untouched |
| Stm32I2c.OpenControl | drivers/i2c/stm32-i2c.c:169-180 | after open CR1 = PE and CR2 = clk/1 MHz OR ITEVTEN OR ITERREN |
| Stm32I2c.OpenCcrValue | drivers/i2c/stm32-i2c.c:177 | after open CCR holds the standard-mode value for the platform clock |
| Stm32I2c.OpenRiseTime | drivers/i2c/stm32-i2c.c:177 | after open TRISE holds clk/1000000 + 1 |
| Stm32I2c.BoardCr2 | drivers/i2c/stm32-i2c.c:174-175 | with the board's 42 MHz clock CR2 = 0x32a (42 with both interrupt enables) |
| Stm32I2c.BoardOpen | drivers/i2c/stm32-i2c.c:169-180 | on the board, open leaves CR2 = 0x32a, CCR = 140 and TRISE = 43 |
| Stm32I2c.Controller.SetFreq | drivers/i2c/stm32-i2c.c:90-133 | the register steps of set_freq produce exactly I2cTiming.SetFreq's hardware and code |
| Stm32I2c.Controller.GenerateStartCondition | drivers/i2c/stm32-i2c.c:206-223 | produces exactly StartCondition's hardware and code |
| Stm32I2c.Controller.GenerateStopCondition | drivers/i2c/stm32-i2c.c:225-230 | produces exactly StopCondition's hardware |
| Stm32I2c.Controller.SendRxAddress | drivers/i2c/stm32-i2c.c:232-250 | produces exactly AddressPhase with the read address byte |
| Stm32I2c.Controller.SendTxAddress | drivers/i2c/stm32-i2c.c:252-271 | produces exactly AddressPhase with the write address byte |
| Stm32I2c.Controller.ReadBytes | drivers/i2c/stm32-i2c.c:283-284 | the in-place for-loop leaves RecvData's hardware and puts its bytes in buf[0..n), the rest of buf unchanged |
| Stm32I2c.Controller.ReadInto | drivers/i2c/stm32-i2c.c:284 | one DR read stored, truncated to a byte, at buf[i]; nothing else in buf changes |
| Stm32I2c.Controller.Recv | drivers/i2c/stm32-i2c.c:273-287 | produces exactly RecvPhase's hardware and code; on success the buffer is the received bytes followed by its old tail, on failure unchanged |
| Stm32I2c.Controller.AwaitTxe | drivers/i2c/stm32-i2c.c:304-305 | the spin loop produces exactly WaitTxe's hardware and outcome |
| Stm32I2c.Controller.WriteBytes | drivers/i2c/stm32-i2c.c:303-307 | the nested loops produce exactly SendData over buf[0..n) |
| Stm32I2c.Controller.Send | drivers/i2c/stm32-i2c.c:289-312 | produces exactly SendPhase's hardware and outcome; interrupts end up enabled exactly when it returned 0 |
| Stm32I2c.Controller.RecvMessage | drivers/i2c/stm32-i2c.c:334-335 | a read on a list's buffers changes only message i's buffer, as RecvPhase says |
| Stm32I2c.Controller.SendMessage | drivers/i2c/stm32-i2c.c:336-337 | a write on a list's buffers changes no buffer, as SendPhase says |
| Stm32I2c.Controller.RunMessage | drivers/i2c/stm32-i2c.c:330-340 | one loop turn produces exactly StepMsg's state and outcome |
| Stm32I2c.Controller.RunMessages | drivers/i2c/stm32-i2c.c:329-341 | the loop with break-on-error produces exactly Loop's state and outcome |
| Stm32I2c.Controller.Transfer | drivers/i2c/stm32-i2c.c:314-350 | produces exactly I2cTransfer.Transfer's state and outcome, so TransferOutcome, StartErrorAborts and ErrorAbortsTransfer apply to it |
| Stm32I2c.Controller.FinishTransfer | drivers/i2c/stm32-i2c.c:345-347 | the stop condition, then the mutex released; nothing else changes |
| Stm32I2c.Controller.Open | drivers/i2c/stm32-i2c.c:148-185 | -EINVAL exactly without platform data, with nothing changed; -ENOMEM on a failed allocation, with priv null and registers untouched; otherwise 0, the registers OpenRegisters describes and priv allocated |
| Stm32I2c.Controller.Close | drivers/i2c/stm32-i2c.c:187-204 | returns 0 after exactly the CR1 = 0 write, and frees an allocated priv |
| Stm32I2c.Controller.Ioctl | drivers/i2c/stm32-i2c.c:352-379 | every request that returns yields 0. A transfer request has Transfer's effect, a frequency request has SetFreq's effect, and any other command changes nothing |

## Left out

- The interrupt handlers `stm32_i2c_err_irq`/`stm32_i2c_evt_irq` and the
  transfer semaphore: they serve interrupt-to-task concurrency, and the
  engine never waits on the semaphore (those calls are commented out).
- Mutual exclusion: the mutex is a ghost "held" flag. Contention and
  blocking are concurrency and not modelled.
- `stm32_i2c_probe`/`stm32_i2c_remove`, `stm32_adapter_priv_alloc`'s mutex
  and semaphore initialisation: framework glue. The allocation's success
  is a nondeterministic choice in `Controller.Open`.
- `i2c_dump` and every `kprintf`: debug output. The register reads in
  `i2c_dump` (including its SR1 and SR2 reads) are treated as free of side
  effects and do not appear in the trace.
- The file/inode/device lookups and the `RET_IF_FAIL` checks of open,
  close and ioctl: the model starts from the device. The same holds for
  ioctl's use of the file before its null check.
- Hardware behaviour beyond what the driver reads: START and STOP bits
  self-clearing, SR1 flags set by the bus. SR1 and DR values are whatever
  the caller-supplied feeds deliver, and 0 once a feed runs out.
- Varargs decoding in ioctl: a request is given as a datatype value.
  `I2C_M_READ` is reduced to a boolean.
- I2cTiming.CcrFields: nothing in the source bounds the count
  clk / (3 freq). For small frequencies it spills into bit 14 (DUTY) and
  bit 15 (the fast-mode bit), as SlowCountSetsDuty and
  SlowCountSetsFastMode show. "DUTY is clear" and "the speed bit follows
  the frequency" therefore hold only when the count fits below bit 14.
- I2cTransfer.StepMsg, I2cTransfer.Loop, I2cTransfer.Transfer: require
  that every message's length fits its buffer (`Fits`). The source
  accepts a longer length and reads or writes past the buffer's end.
- Controller.Recv, Controller.Send, Controller.RecvMessage,
  Controller.SendMessage, Controller.RunMessage, Controller.RunMessages,
  Controller.Transfer, Controller.Ioctl: require `length <= buffer.Length`
  for each message, for the same reason. Controller.ReadBytes and
  Controller.WriteBytes require the count to fit the buffer likewise.
- Controller.Transfer, Controller.Ioctl: require an allocated private
  block for a non-empty transfer. The source would take a mutex through
  a null or freed pointer.
- Controller.Close: requires that priv was not already freed. A second
  close would free it twice.
- Controller.Ioctl: a frequency request requires freq > 0, and platform
  data when the frequency is accepted, as Controller.SetFreq does.
- Controller.SetFreq, I2cTiming.SetFreq: require freq > 0, since the
  source divides by `freq * 3` unguarded. Controller.SetFreq also
  requires platform data on the accepted path, where the clock is
  dereferenced.
- Controller.Open: a second open after a successful one overwrites priv.
  The earlier allocation is not tracked.
- The TXE spin: a wait that never ends (the status values run out without
  TXE) is the outcome `SpinsForever`. The state is then left as it was at
  that moment, and no stop condition or unlock follows.
- I2cTransfer.StepMsg, I2cTransfer.Loop, I2cTransfer.Transfer: their own
  contracts state only that buffers keep their shape. Their behaviour is
  stated by the Step*, Loop* and Transfer* lemmas.
- The loops of `stm32_i2c_recv`, `stm32_i2c_send` and
  `stm32_i2c_transfer` are split into helper methods (ReadBytes/ReadInto,
  AwaitTxe/WriteBytes, RunMessage/RecvMessage/SendMessage, FinishTransfer).
  Each is proved against the same functions.
- The board file (PLL and clock tree, GPIO, USART, device tables) and the
  greybus USB driver: only the 42 MHz APB1 clock value is used.
