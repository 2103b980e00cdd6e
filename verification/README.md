# Verified model of an 8051 simulator and its devices

The program simulates an 8051 microcontroller and a board around it: the
instruction core with its timers, UART and two-level interrupt controller, an
instruction-mode stepper for plugins, an ENC28J60 Ethernet controller on SPI, a
DS1302 clock chip, in-application-programmable flash, an HD44780 display, the
Intel HEX loader, and the bus that fans register accesses out to the devices.

Each part appears twice. A value datatype and functions on it say what a step
does to the state; the theorems are about those functions, over every run. A
class with the source's fields, arrays and loops does the same work in place,
and every method's `ensures` equates the state it leaves with the function of
the state it found. So a method whose body skipped or swapped a step would fail
its own contract, and a function changed to match would fail the theorems.

| files | part |
|---|---|
| `Bytes.dfy` | bytes as bounded integers, bit operations on them |
| `Crc32.dfy`, `CrcResidue.dfy`, `Primes.dfy`, `CrcPeriod.dfy`, `CrcErrors.dfy` | the frame check sequence |
| `EncCore.dfy` | the ENC28J60 as a byte-level command machine with a receive ring |
| `EncCommands.dfy`, `EncRegisters.dfy` | what whole commands do to its buffer, pointers and registers |
| `EncSpi.dfy` | its serial port, bit by bit |
| `EncTx.dfy`, `EncRing.dfy`, `EncFilter.dfy` | the log of sent frames; the receive ring as a queue; what is received |
| `EncDevice.dfy` | the controller as an object |
| `Cpu.dfy`, `Timers.dfy`, `TimerControl.dfy`, `Interrupts.dfy`, `InterruptSources.dfy`, `InterruptRuns.dfy`, `Ticks.dfy`, `TickNesting.dfy`, `Arithmetic.dfy` | the core |
| `CondJumps.dfy`, `JumpConditions.dfy`, `Core.dfy` | conditional jumps; the core as an object |
| `UartLog.dfy`, `Stepping.dfy` | the log of transmitted bytes; the simulator's two stepping modes |
| `Ds1302Clock.dfy`, `Ds1302Serial.dfy`, `Ds1302Device.dfy` | the clock chip |
| `IapFlash.dfy`, `IapDriver.dfy`, `HexFile.dfy`, `HexForms.dfy` | flash, loader |
| `SfrBus.dfy`, `LcdController.dfy`, `LcdMemory.dfy` | bus, display |

`dafny verify dfyconfig.toml` checks the whole project.

## Model

| member | source | states |
|---|---|---|
| `Crc32.ComputeCrc` | sim/devices/enc28j60.c:453-464 | the nested loop computes the reflected CRC-32 of the data for every length |
| `Crc32.StepsLinear` | sim/devices/enc28j60.c:459-461 | any number of shift steps is linear over exclusive or |
| `Crc32.StepsInjective` | sim/devices/enc28j60.c:459-461 | any number of shift steps loses nothing: equal results come from equal registers |
| `Crc32.BitsMixFirst` | sim/devices/enc28j60.c:456-462 | mixing a byte in whole and then shifting equals feeding its bits one at a time |
| `Crc32.RunIsBits` | sim/devices/enc28j60.c:456-462 | the byte loop over a frame is the one-bit machine over the frame's bits on the wire |
| `Crc32.ShortRunsDiffer` | sim/devices/enc28j60.c:453-464 | from one register value, two different runs of at most 32 bits end in different values |
| `Crc32.BurstDetected` | sim/devices/enc28j60.c:453-464 | any error burst inside 32 consecutive bits, at any bit offset, changes the CRC (IEEE Std 802.3 section 3.2.9) |
| `Crc32.FourBytesDetected` | sim/devices/enc28j60.c:453-464 | equal-length frames that differ only inside four consecutive bytes have different check sequences |
| `Crc32.ResidueExact` | sim/devices/enc28j60.c:532-545 | the CRC over data and four more bytes is the residue if and only if those bytes are the data's check sequence, low byte first |
| `CrcResidue.StepAgrees` | sim/devices/enc28j60.c:459-461 | the shift step on integers is the shift step on 32-bit words |
| `CrcResidue.ResidueIsMagic` | sim/devices/enc28j60.c:532-545 | and that residue is 2144DF1Ch |
| `CrcErrors.FirstWordComplemented` | sim/devices/enc28j60.c:453-464 | the check sequence is that of a register started at 0 with the frame's first 32 bits complemented, itself complemented (IEEE Std 802.3 section 3.2.9) |
| `CrcErrors.PeriodExact` | sim/devices/enc28j60.c:459-461 | the register returns to its top bit after exactly the multiples of 2^32 - 1 steps: the polynomial is primitive |
| `CrcErrors.LeadingZeros` | sim/devices/enc28j60.c:453-464 | zero bytes in front of a frame change its check sequence unless there are a multiple of 2^32 - 1 of them |
| `CrcErrors.TwoBitErrors` | sim/devices/enc28j60.c:453-464 | any two wrong bits in a frame change its check sequence unless they lie a multiple of 2^32 - 1 bits apart |
| `EncCommands.WriteCommand` | sim/devices/enc28j60.c:262-339 | a WCR in bank 0, away from ERXST, changes exactly the register named |
| `EncCommands.SetPointer` | sim/devices/enc28j60.c:191-207 | two WCRs set a 13-bit pointer and nothing else |
| `EncCommands.ReadBuffer` | sim/devices/enc28j60.c:133-155 | READ_BUF_MEM consumes exactly once: the host gets the n bytes at successive ring positions (ERXND going to ERXST), ERDPT moved n ring steps, the byte count grew by n, nothing else changed |
| `EncCommands.WriteBuffer` | sim/devices/enc28j60.c:160-170 | WRITE_BUF_MEM stores the bytes at successive addresses modulo 8192, moves EWRPT past them and changes nothing else |
| `EncCommands.BufferRoundTrip` | sim/devices/enc28j60.c:133-170 | write then read back returns the data, if no byte of it but the last lies at ERXND |
| `EncRegisters.ReadAnswers` | sim/devices/enc28j60.c:282-298 | RCR answers the register of the selected bank, or the shared one, in the byte after the opcode; behind a dummy 0 for everything in bank 2 and for MAADR and MISTAT in bank 3 |
| `EncRegisters.ReadChangesNothing` | sim/devices/enc28j60.c:300-339 | RCR changes no register, buffer byte, pointer, count or log, however many bytes are clocked |
| `EncRegisters.WriteRegister` | sim/devices/enc28j60.c:308-321 | WCR, BFS and BFC in any bank: the value, the bits set, the bits left, in that register alone |
| `EncRegisters.WriteThenRead` | sim/devices/enc28j60.c:282-321 | what WCR, BFS or BFC wrote is what RCR then answers, and every other register of the bank answers as before |
| `EncRegisters.ResetAnswers` | sim/devices/enc28j60.c:172-189 | what every register of every bank reads as after a soft reset |
| `EncRegisters.TransmitCommand` | sim/devices/enc28j60.c:209-260 | a transmit request: the frame logged, TXRTS clear again, TXIF set, no other bit of any register different |
| `EncRegisters.SharedInBankTwo` | sim/devices/enc28j60.c:108-121 | with bank 2 selected a driver that expects no dummy there reads ECON1 as 0, which it is not |
| `EncSpi.BitsAreBytes` | sim/devices/enc28j60.c:341-377 | whatever port writes clock bits in under one CS run, the chip acts exactly as the byte machine on the bytes they make up, each once and in order, the rest waiting in the shift register |
| `EncSpi.MisoSpellsStaged` | sim/devices/enc28j60.c:341-390 | the MISO bits sampled after rising edges spell, MSB first, the byte that was staged before each byte |
| `EncSpi.IdleWrite` | sim/devices/enc28j60.c:341-377 | a port write that changes neither CS nor SCK changes nothing |
| `EncSpi.Transaction` | sim/devices/enc28j60.c:300-390 | a whole transaction at the pins is the byte-level command, its MISO bits the command's answer, and a byte cut short by CS has no effect on the core |
| `EncTx.LogIsHistory` | sim/devices/enc28j60.c:578-589 | frame i of the log is given exactly when i is among the last 32 sent, and is then the i-th frame sent |
| `EncTx.LogFollowsSent` | sim/devices/enc28j60.c:209-260 | over the bytes of one command the log grows by exactly the frames they send |
| `EncTx.LogAgreesWithHistory` | sim/devices/enc28j60.c:578-589 | the log agrees with the full history: over any run of commands and arrivals from an empty log, frame i reads back exactly when it is among the last 32 sent in the run, and is then the i-th frame sent |
| `EncTx.TxFrameContents` | sim/devices/enc28j60.c:209-235 | for ETXST < ETXND <= ETXST+1536 the frame is the bytes after ETXST up to ETXND, zero-padded to 60 when MACON3 asks for it |
| `EncTx.TxFrameOtherwise` | sim/devices/enc28j60.c:209-235 | for any other window: nothing if ETXND < ETXST, else 1536 bytes, around the end of the buffer |
| `EncRing.StoreTurn` | sim/devices/enc28j60.c:532-546 | the packet loop lays its bytes once around the ring from the write pointer and touches nothing else |
| `EncRing.InjectRefines` | sim/devices/enc28j60.c:491-552 | an injected frame is appended to the queue the ring stands for, or refused with the code the plain queue gives, with counter, flags and buffer as they must be in each case |
| `EncRing.InjectSparesUnreleased` | sim/devices/enc28j60.c:523-546 | an injection overwrites no byte of an unreleased packet and nothing outside the ring |
| `EncRing.OverflowOnlyFlags` | sim/devices/enc28j60.c:514-519 | an overflow sets RXERIF and BUFER and changes not a bit besides |
| `EncRing.UsedIsOccupied` | sim/devices/enc28j60.c:513 | the occupied space computed from the pointers is the sum of the queued packets' even-rounded sizes |
| `EncRing.ReleaseRefines` | sim/devices/enc28j60.c:238-260 | ERXRDPT set to the head's next pointer, then PKTDEC, takes exactly the head off the queue and lowers EPKTCNT; EIR keeps every bit while packets remain, and PKTIF falls with the last one |
| `EncRing.ReadKeepsQueue` | sim/devices/enc28j60.c:133-155 | reading from the buffer leaves the queue as it is |
| `EncRing.RingIsFifo` | sim/devices/enc28j60.c:491-552 | for every run of arrivals, buffer reads and releases, across any number of wraps: same answers as a plain FIFO of frames, EPKTCNT its length, PKTIF up exactly while it is not empty, and following the next pointers decodes exactly its frames in order |
| `EncRing.FollowIsQueue` | sim/devices/enc28j60.c:521-546 | following next pointers from ERXRDPT decodes exactly the queued frames, oldest first |
| `EncRing.DriverReadsHead` | sim/devices/enc28j60.c:133-155 | one READ_BUF_MEM from the head yields the head packet's header, frame and FCS even where it straddles ERXND |
| `EncRing.DriverDecodesHead` | sim/devices/enc28j60.c:521-546 | what those bytes say: next pointer, byte count, received OK, group bit, first byte FFh, the frame, and a check sequence that leaves the residue |
| `EncRing.EnableKeepsQueue` | sim/devices/enc28j60.c:238-260 | setting RXEN while no transmission is requested keeps the queue and changes no other register |
| `EncRing.RingReady` | sim/devices/enc28j60.c:172-189 | reset, the register writes that set up a ring with even ERXST and odd ERXND, and RXEN give an empty queue and a receiver that takes in every broadcast frame it has room for |
| `EncFilter.UnicastAlone` | sim/devices/enc28j60.c:466-489 | OR mode with UCEN alone takes in a frame exactly when its first six bytes are registers 3:04h, 05h, 02h, 03h, 00h, 01h |
| `EncFilter.BroadcastAlone` | sim/devices/enc28j60.c:466-489 | BCEN alone: exactly when they are all FFh |
| `EncFilter.MulticastAlone` | sim/devices/enc28j60.c:466-489 | MCEN alone: exactly when the group bit is set and they are not all FFh |
| `EncFilter.UnionOfKinds` | sim/devices/enc28j60.c:483-488 | in OR mode the filter takes in exactly what some enabled kind takes in alone |
| `EncFilter.IntersectionOfKinds` | sim/devices/enc28j60.c:483-488 | in AND mode exactly what every enabled kind takes in alone, and nothing with a pattern, magic packet or hash filter on |
| `EncFilter.Refusals` | sim/devices/enc28j60.c:491-519 | when each refusal code is given, in the order the source checks, and that a refused frame changes nothing |
| `EncFilter.StationReady` | sim/devices/enc28j60.c:491-552 | from any state, after reset, ring, station address and RXEN: the empty queue, and RxOk for exactly the station's own and broadcast frames that fit |
| `EncRing.ByteKeepsWriter` | sim/devices/enc28j60.c:238-260 | no command byte but a write to ERXND leads the write pointer out of the ring |
| `EncRing.CommandKeepsWriter` | sim/devices/enc28j60.c:300-339 | nor does any command without such a byte |
| `EncRing.ArrivalKeepsWriter` | sim/devices/enc28j60.c:523-552 | nor does an arrival, and from inside the ring an accepted packet is stored inside the buffer |
| `EncDevice.Enc28j60.CommitReadByte` | sim/devices/enc28j60.c:141-155 | one data byte of READ_BUF_MEM moves ERDPT one ring step, counts one byte and changes nothing else |
| `EncDevice.Enc28j60.CommitWriteByte` | sim/devices/enc28j60.c:160-170 | one data byte of WRITE_BUF_MEM is stored at EWRPT, which moves on by one modulo 8192 |
| `EncDevice.Enc28j60.DoSoftReset` | sim/devices/enc28j60.c:172-189 | a soft reset leaves exactly the reset register file, the packet buffer as it was |
| `EncDevice.Enc28j60.CopyWindow` | sim/devices/enc28j60.c:214-226 | the copying loop puts exactly the transmit window into the log slot and leaves the other slots alone |
| `EncDevice.Enc28j60.PadFrame` | sim/devices/enc28j60.c:227-231 | the padding loop adds exactly the missing zeros |
| `EncDevice.Enc28j60.DoTransmit` | sim/devices/enc28j60.c:209-235 | a transmit request appends the frame to the log |
| `EncDevice.Enc28j60.AfterRegisterWrite` | sim/devices/enc28j60.c:238-260 | a register write starts a transmission, ends a packet or moves the write pointer exactly when its address and bits say so |
| `EncDevice.Enc28j60.Decode` | sim/devices/enc28j60.c:262-298 | the opcode byte selects the command the byte-level machine selects and stages its first answer |
| `EncDevice.Enc28j60.OnByteComplete` | sim/devices/enc28j60.c:300-339 | a complete byte does what the byte-level machine does |
| `EncDevice.Enc28j60.OnSpiWrite` | sim/devices/enc28j60.c:341-377 | a port write is exactly the bit-level step |
| `EncDevice.Enc28j60.RxAccept` | sim/devices/enc28j60.c:466-489 | the filter loop decides exactly the AND/OR combination of unicast, broadcast and multicast matches |
| `EncDevice.Enc28j60.StorePacket` | sim/devices/enc28j60.c:532-546 | the packet loop leaves the buffer the ring theorems speak of |
| `EncDevice.Enc28j60.InjectRx` | sim/devices/enc28j60.c:491-552 | an injection's new state and return code are those of the function that refines the queue |
| `EncDevice.Enc28j60.GetTxFrame` | sim/devices/enc28j60.c:578-589 | the whole length of the frame the log gives for an index, and as much of it as the caller has room for; -1 for none |
| `Timers.Mode0Closed` | core.c:157-175 | n counts of mode 0: a 13-bit counter modulo 8192, upper TL bits kept, overflows counted exactly |
| `Timers.Mode1Closed` | core.c:176-192 | n counts of mode 1: a 16-bit counter |
| `Timers.Mode2Closed` | core.c:193-203 | n counts of mode 2: TL0+n below 256, then periods of 256-TH, and how many overflows |
| `Timers.Timer0Run` | core.c:57-209 | timer 0 over any n ticks in modes 0 to 2, and TL0 in mode 3, with sticky TF0 set exactly when it was set or an overflow occurred |
| `Timers.SplitRun` | core.c:57-209 | TH0 in mode 3 over any n ticks under TR1, with TF1 sticky, or the transmitter clocked by TH0's overflows |
| `Timers.Timer1Run` | core.c:213-305 | the same for timer 1, timer 0 not in mode 3 |
| `Timers.SerialTxEffect` | core.c:36-54 | a transmit step counts one bit, logs the byte and raises TI and the interrupt only with the last one |
| `Timers.TransmitRun` | core.c:277-303 | after k overflows of timer 1, min(k,8) bits are out |
| `Timers.UartTiming` | core.c:36-54 | an armed byte is logged on exactly tick (256-TL1)+7*(256-TH1) and nothing of it shows before |
| `Timers.LineLevel` | core.c:36-54 | P3.1 after the k-th overflow while a byte goes out: whether SBUF shifted right 8-k places is not 0; the other bits of P3 kept |
| `Timers.LineExact` | core.c:41-45 | that is the bit of SBUF then due, at every overflow, for exactly the bytes 00h, 01h, 03h, 07h, 0Fh, 1Fh, 3Fh, 7Fh and FFh |
| `TimerControl.Timer0Counts` | core.c:57-209 | TR0 set, GATE and C/T clear: the mode bits of TMOD say how TH0 and TL0 count over n ticks and when TF0 comes up |
| `TimerControl.Timer1Counts` | core.c:213-305 | the same for TR1, its half of TMOD and TF1 |
| `TimerControl.Timer0Still` | core.c:137-148 | with TR0 clear, or GATE or C/T set, timer 0 does not move and TF0 stays, for every n |
| `TimerControl.Timer1Still` | core.c:213-225 | the same for timer 1, TF1, the transmitter, P3 and SCON |
| `TimerControl.CountInEveryTick` | core.c:451-503 | over any run awake, whatever its ticks are spent on, the counters take exactly one count a tick |
| `TimerControl.Timer0Interrupts` | core.c:310-449 | timer 0 started as a 16-bit timer with ET0 and EA: the core enters 000Bh, TF0 down again, exactly when the count has passed FFFFh |
| `Interrupts.FirstPending` | core.c:320-405 | the first source in polling order that is pending, or pending at high priority |
| `Interrupts.EntersExactly` | core.c:310-413 | an interrupt is entered if and only if EA is set, no high service is active, and a source is pending, at high priority if a low service is active |
| `Interrupts.EntryPushesLevel` | core.c:415-448 | entry pushes one level above all in service onto the stack mInterruptActive encodes |
| `Interrupts.RetiPopsLevel` | opcodes.c:452-479 | RETI takes the topmost level out |
| `InterruptSources.BestIsServed` | core.c:310-449 | from IE, IP, TCON and the serial request: the source that is up and beats every other one up, by level and then polling order, is entered at its vector, with its flag and no other cleared |
| `InterruptSources.NothingServed` | core.c:310-413 | with EA clear, or no source up that may interrupt the service in hand, nothing changes |
| `InterruptSources.OneSourceUp` | core.c:320-448 | IE0, TF0, IE1, TF1 and the serial request, each alone, lead to 0003h, 000Bh, 0013h, 001Bh and 0023h |
| `InterruptSources.KeptBits` | opcodes.c:452-479 | RETI compares exactly C, AC, RS1, RS0 and OV of PSW |
| `InterruptRuns.RunNests` | core.c:310-449 | over every run of balanced handlers with at most 256 live stack bytes, the stack of levels, the stack bytes and the saved A, PSW and SP stay in step |
| `InterruptRuns.RetiResumes` | opcodes.c:452-479 | RETI resumes the PC its own entry pushed and raises mismatches exactly when A or the kept PSW bits differ from that entry's |
| `InterruptRuns.ServiceReturns` | core.c:310-449 | from entry to its own RETI, nested services included: PC, stack, SP and levels are as they were |
| `TickNesting.TickIsEvents` | core.c:451-503 | a tick is exactly its events: an entry, or an instruction's stack and RETI deeds, and then the rest of the tick |
| `TickNesting.CoreRunNests` | core.c:451-503 | so over every balanced run of ticks the core goes through a legal run of events, and nesting is kept |
| `TickNesting.CoreServiceReturns` | core.c:310-503 | from the tick that enters a service to the tick of its own RETI the core comes back to the PC, SP, live stack and levels it left |
| `Cpu.ParityFold` | core.c:493-497 | folding ACC and looking it up in 6996h gives the parity of its eight bits |
| `Cpu.PushesRaise` | opcodes.c:111-129 | over any number of pushes SP goes round modulo 256 and the stack exception is raised once for each bad address: 0, and without upper RAM 80h to FFh |
| `Cpu.PopsUndoPushes` | opcodes.c:111-149 | up to 256 pushes and as many pops: the bytes back, last one first, 77h where there was no RAM, SP restored, each bad address raised twice |
| `Ticks.CyclesConserved` | core.c:451-503 | over every run awake: ticks so far plus the debt equal the initial debt plus 1+return per instruction, 2 per interrupt entry and 1 per idle tick |
| `Ticks.ParityOverRun` | core.c:492-497 | PSW.P is the parity of ACC after every tick of every run, whatever the instructions |
| `Ticks.PowerDownSleeps` | core.c:469-471 | in power-down nothing changes over any run |
| `Ticks.IdleWaits` | core.c:485-490 | idle, the core keeps PC, stack, RAM and A and stays idle over any run in which no interrupt is due |
| `Ticks.EntryWakes` | core.c:415-448 | the interrupt that is due ends idle at its vector |
| `Ticks.TimersKeep` | core.c:57-308 | the timers leave PC, stack, RAM, A, PSW and the cycle debt alone |
| `Arithmetic.AddcByte` | opcodes.c:152-165 | one ADDC: value, carry and signed overflow |
| `Arithmetic.SubbByte` | opcodes.c:167-175 | one SUBB: value, borrow and signed overflow |
| `Arithmetic.NibbleCarry` | opcodes.c:152-165 | AC of an addition is the carry out of the low nibbles and into the high ones |
| `Arithmetic.NibbleBorrow` | opcodes.c:167-175 | AC of a subtraction is the borrow |
| `Arithmetic.AddcChainExact` | opcodes.c:491-519 | ADDC chained over n-byte numbers: the sum modulo 256^n, C the carry, OV set if and only if the signed n-byte sum does not fit |
| `Arithmetic.SubbChainExact` | opcodes.c:932-960 | the same for SUBB and the difference |
| `Arithmetic.AddDecimalByte` | opcodes.c:1323-1352 | ADDC then DA A on packed-decimal bytes: the decimal sum and carry |
| `Arithmetic.AddDecimalChainExact` | opcodes.c:1323-1352 | chained over n packed-decimal bytes: the n-byte decimal sum, packed decimal again, C the decimal carry |
| `Core.Em8051.PushToStack` | opcodes.c:111-129 | a push moves SP, stores the byte or loses it where there is no RAM, and raises the stack exception in exactly those cases |
| `Core.Em8051.PopFromStack` | opcodes.c:131-149 | a pop gives the byte at SP, or 77h where there is no RAM, moves SP and raises the stack exception in exactly those cases |
| `Core.Em8051.AddSolveFlags` | opcodes.c:152-165 | C, AC and OV of an addition, the other PSW bits kept |
| `Core.Em8051.SubSolveFlags` | opcodes.c:167-175 | C, AC and OV of a subtraction |
| `Core.Em8051.AddcImm` | opcodes.c:491-498 | ADDC A,#data is the function the chain theorem is about |
| `Core.Em8051.SubbImm` | opcodes.c:932-939 | SUBB A,#data likewise |
| `Core.Em8051.DaA` | opcodes.c:1323-1352 | DA A likewise |
| `Core.Em8051.RetiOp` | opcodes.c:452-479 | RETI raises its mismatches, ends the topmost level and resumes the address popped |
| `Core.Em8051.SerialTxTick` | core.c:36-54 | one bit out on P3.1; with the last one the byte logged, TI set and the interrupt requested if enabled |
| `Core.Em8051.TimersTick` | core.c:57-308 | both timers' nested modes are the counting function of the closed forms |
| `Core.Em8051.PollSources` | core.c:310-405 | the five ifs with hi and lo find exactly the first pending source of high priority, or else the first pending one |
| `Core.Em8051.ServeInterrupts` | core.c:310-449 | the interrupt due, and only it, is entered: both pushes, vector, cleared request, saved A, PSW and SP, one cycle owed |
| `Core.Em8051.TickOnce` | core.c:451-503 | a tick burns debt, sleeps, enters an interrupt, idles or executes, as the run theorems assume, and reports which |
| `Core.Em8051.Reset` | core.c:523-566 | a reset, wiping or warm: registers and bookkeeping, RAM and code memory only when wiping, and not the serial ring's position |
| `Core.WarmResetClearsPowerFlag` | core.c:545-549 | a warm reset leaves PCON 0, so it keeps the power-off flag if and only if it was clear |
| `CondJumps.LengthOfCondRel` | sim/plugin.c:18-45 | the length table's entries for the conditional jumps |
| `CondJumps.RelAtIsLast` | sim/plugin.c:426-430 | the byte the stepper looks at is the instruction's last, for every PC and every power-of-two code size, wrap included |
| `CondJumps.NoAlias` | sim/plugin.c:440-444 | a zero offset byte is never the opcode or the operand, so patching it changes neither |
| `CondJumps.SteppedExact` | sim/plugin.c:425-454 | run with offset 1 and put right, a zero-offset conditional jump leaves the state of the plain run, and is reported taken exactly when its condition held, save one left unpatched |
| `JumpConditions.CompareIsSubtraction` | opcodes.c:1135-1157 | CJNE sets C and jumps as SUBB on a clear C would borrow and leave something; nothing else changes |
| `JumpConditions.CompareAndBranch` | opcodes.c:522-590 | CJNE A,#data then JC or JNC: not equal, less, not less |
| `JumpConditions.SubtractAndBranch` | opcodes.c:643-718 | SUBB A,#data then JZ, JNZ, JC or JNC: equal, not equal, less, not less |
| `JumpConditions.ComparedOperands` | opcodes.c:1183-1207 | the register and indirect forms compare register n of the selected bank, or what R0 or R1 points at |
| `JumpConditions.DirectInRam` | opcodes.c:1354-1370 | CJNE and DJNZ on a RAM byte |
| `JumpConditions.TestsBit` | opcodes.c:329-450 | JB and JNB below 80h test bit n % 8 of byte 20h + n / 8 |
| `JumpConditions.JbcTakesBit` | opcodes.c:230-273 | JBC jumps exactly if JB would; then JB there will not, and for every other bit of that RAM it does as before |
| `JumpConditions.JbcTakesLatch` | opcodes.c:230-273 | on an SFR, JBC takes the one bit out of the latch before the callback, or does nothing |
| `JumpConditions.LoopCount` | opcodes.c:1647-1660 | a DJNZ loop runs as often as its register says, 256 times for 0 |
| `Core.Em8051.Jbc` | opcodes.c:230-273 | JBC tests the latch, clears the bit and jumps |
| `Core.Em8051.JumpOnBit` | opcodes.c:329-450 | JB and JNB |
| `Core.Em8051.JumpOnCarry` | opcodes.c:522-590 | JC and JNC |
| `Core.Em8051.JumpOnZero` | opcodes.c:643-718 | JZ and JNZ |
| `Core.Em8051.CjneAImm` | opcodes.c:1135-1157 | CJNE A,#data |
| `Core.Em8051.CjneADirect` | opcodes.c:1159-1182 | CJNE A,direct, the operand's callback before A is read |
| `Core.Em8051.CjneIndirect` | opcodes.c:1183-1207 | CJNE @Ri,#data |
| `Core.Em8051.CjneRegister` | opcodes.c:1612-1635 | CJNE Rn,#data |
| `Core.Em8051.DjnzDirect` | opcodes.c:1354-1370 | DJNZ direct |
| `Core.Em8051.DjnzRegister` | opcodes.c:1647-1660 | DJNZ Rn |
| `Core.Em8051.RunHandler` | opcodes.c:230-273 | the dispatch on the opcode reaches the handler of every conditional jump |
| `Stepping.JumpClocks` | sim/plugin.c:440-458 | the clocks and the effect of a conditional jump depend on its condition alone, not on its offset |
| `Stepping.VectorReturns` | sim/plugin.c:209-215 | a return from a plugin's interrupt finds PC and SP as they were |
| `Stepping.FirstDecides` | sim/plugin.c:402-412 | the first begin hook that answers decides the wait |
| `Stepping.FirstIrqDecides` | sim/plugin.c:413-424 | the first interrupt hook that answers decides the vector |
| `Stepping.FirstAdjustsFirst` | sim/plugin.c:467-469 | the after hooks adjust the clocks in order |
| `Stepping.Sim.RunPatched` | sim/plugin.c:425-454 | patch, run, restore: the state of the plain run, code memory unchanged |
| `Stepping.Sim.StepInstruction` | sim/plugin.c:395-485 | one step: a wait, an interrupt entry or an instruction; code memory unchanged; 12 * hook rounds + device clocks grows by exactly the clocks spent and fewer than 12 stay over |
| `Stepping.Sim.StepTick` | sim/plugin.c:487-498 | a tick, a hook round and 12 clocks |
| `Stepping.Sim.StepTicks` | sim/capi.c:256-268 | the plain loop of n ticks reaches the state, the log and the totals of n single steps |
| `Stepping.Sim.PostTick` | sim/capi.c:221-234 | a moved ring position counts one byte |
| `Stepping.Sim.ResetCounts` | sim/capi.c:201-212 | the counts re-anchored at the ring's position |
| `Stepping.Sim.UartTxByte` | sim/capi.c:647-658 | the byte an index gives, or -1 |
| `UartLog.TickLogs` | sim/capi.c:221-234 | a tick completes at most one byte, and the ring moves exactly when it does |
| `UartLog.TxByteExact` | sim/capi.c:192-234 | over any run from a reset, index i gives the latest transmitted byte whose index is congruent to i modulo 18, so exactly byte i for the last 18, and -1 for none |
| `Ds1302Clock.DecodeEncode` | sim/devices/ds1302.c:130-140 | setting a time and date that exist leaves valid registers that show exactly them |
| `Ds1302Clock.MonthStarts` | sim/devices/ds1302.c:46-62 | the days before each month and in it by the calendar's formula, leap years included |
| `Ds1302Clock.AdvanceValid` | sim/devices/ds1302.c:64-116 | a second keeps every BCD and calendar field valid |
| `Ds1302Clock.SecondAdvances` | sim/devices/ds1302.c:64-116 | a second moves the absolute time by one modulo 36525 days, and the weekday at midnight only |
| `Ds1302Clock.AdvanceCounts` | sim/devices/ds1302.c:64-116 | n seconds move the absolute time by n and the weekday by one for every midnight passed, modulo 7 |
| `Ds1302Clock.StepNDivides` | sim/devices/ds1302.c:118-128 | n ticks are floor((accum+n)/hz) seconds and leave the remainder |
| `Ds1302Clock.ClockKeepsTime` | sim/devices/ds1302.c:118-128 | n ticks advance a valid clock by exactly that many seconds modulo 36525 days, validity kept |
| `Ds1302Clock.AbsoluteInjective` | sim/devices/ds1302.c:36-62 | valid registers with equal absolute times show the same time and date |
| `Ds1302Serial.IdleWrite` | sim/devices/ds1302.c:156-272 | a port write that changes neither CE nor SCLK leaves the device unchanged |
| `Ds1302Serial.WaveIsEdges` | sim/devices/ds1302.c:156-272 | any port writes act exactly as the edges in them |
| `Ds1302Serial.WholeByte` | sim/devices/ds1302.c:205-272 | eight pulses, least significant bit first, hand over exactly the byte |
| `Ds1302Serial.BurstWriteStores` | sim/devices/ds1302.c:171-272 | a burst write leaves exactly its eight bytes in the registers |
| `Ds1302Serial.BurstRoundTrip` | sim/devices/ds1302.c:149-286 | a bit-level burst write then burst read returns the same eight bytes, whatever the host does to IO during the read |
| `Ds1302Serial.SingleRoundTrip` | sim/devices/ds1302.c:149-286 | likewise for each single register 0 to 7, the others unchanged; addresses 8 to 30 take nothing and read 0 |
| `Ds1302Serial.BurstWaveRoundTrip` | sim/devices/ds1302.c:149-286 | the same over one wave of any port writes, on shared ports or not, that carry the edges |
| `Ds1302Serial.SingleWaveRoundTrip` | sim/devices/ds1302.c:149-286 | and for each single register over one such wave |
| `Ds1302Device.Ds1302.AdvanceOneSecond` | sim/devices/ds1302.c:64-116 | the seven nested carries leave the registers of the next second |
| `Ds1302Device.Ds1302.Step` | sim/devices/ds1302.c:118-128 | a tick adds one to the divider or carries into the calendar |
| `Ds1302Device.Ds1302.OnCeWrite` | sim/devices/ds1302.c:156-169 | a rising CE starts a command and a falling one ends the transfer |
| `Ds1302Device.Ds1302.DecodeCommandByte` | sim/devices/ds1302.c:171-203 | the command byte selects register or burst, read or write |
| `Ds1302Device.Ds1302.OnSclkWrite` | sim/devices/ds1302.c:205-272 | a clock edge takes in or puts out one bit |
| `IapFlash.ProfilesUsable` | sim/devices/iap.c:18-27 | the three profiles' ranges are whole sectors and their trigger bytes differ |
| `IapFlash.SectorInside` | sim/devices/iap.c:63-105 | a sector that starts in the range ends in it, so no erase is refused for its sector alone |
| `IapFlash.FlashClosedForm` | sim/devices/iap.c:53-129 | after any register writes, resets and power-ons: every bit of a writable byte is set exactly when it was, or was erased, and all data programmed there since have it set |
| `IapFlash.FlashIsAndOfData` | sim/devices/iap.c:53-129 | the same byte for byte: FFh, or the initial value if never erased, ANDed with all data programmed there since |
| `IapFlash.OutsideUnchanged` | sim/devices/iap.c:53-105 | nothing outside [lo,hi) ever changes |
| `IapFlash.FiresPerPair` | sim/devices/iap.c:107-119 | commands fire exactly once for each adjacent trig1, trig2 pair |
| `IapFlash.CountsConserved` | sim/devices/iap.c:63-105 | reads + programs + erases + ignored counts every fired, enabled, nonzero command once |
| `IapDriver.ReadTransaction` | sim/devices/iap.c:63-119 | the six writes of a read command leave the byte at ADDRH:ADDRL in DATA, and count one read |
| `IapDriver.ProgramTransaction` | sim/devices/iap.c:63-119 | those of a program command AND the data into that byte alone, and count one program |
| `IapDriver.EraseTransaction` | sim/devices/iap.c:63-119 | those of an erase leave FFh in its 512-byte sector alone, and count one erase |
| `IapDriver.RefusedTransaction` | sim/devices/iap.c:63-105 | disabled or 0: nothing at all; outside the range: one ignored |
| `IapDriver.EraseProgramRead` | sim/devices/iap.c:63-119 | erase, program, read gives the byte programmed |
| `IapDriver.ResetAsked` | sim/devices/iap.c:121-192 | a CONTR write and the end of the tick: a reset or not, into the loader or not, counted, with bits 6 and 7 kept |
| `IapFlash.IapDevice.Execute` | sim/devices/iap.c:63-105 | a command reads, programs, erases or is ignored exactly as the flash theorems assume |
| `IapFlash.IapDevice.WriteSfr` | sim/devices/iap.c:107-131 | a register write is one event of the flash theorems |
| `IapFlash.IapDevice.OnPostTick` | sim/devices/iap.c:174-192 | the end of a tick carries out a pending reset and restores the control bits it keeps |
| `HexFile.LoadPrinted` | core.c:581-635 | loading a printed file applies its records up to the first wrong check byte: -4 exactly when there is one, else 0 |
| `HexFile.PrintThenLoad` | tests/test_hc6800_plugin.c:67-95 | a printed list of correct records loads with 0 and exactly those records applied in order |
| `HexFile.DataErrorCaught` | core.c:608-625 | replacing any one data byte by a different value makes the load return -4 |
| `HexFile.CheckErrorCaught` | core.c:619-625 | and so does replacing a check byte |
| `HexFile.ImageRoundTrip` | tests/test_hc6800_plugin.c:67-82 | an image printed in 16-byte chunks and loaded is exactly that image in code memory, the rest untouched |
| `HexForms.LowerCaseLoads` | core.c:572-635 | any text loads the same with its letters in lower case |
| `HexForms.LoadText` | core.c:581-635 | after correct records: 0 for an end record, -3 for another type, -5 if the file just ends, all records applied; and -2 exactly for a text that does not start with a colon |
| `HexFile.ReadByteAt` | core.c:572-579 | two characters read as hexadecimal |
| `HexFile.LoadData` | core.c:609-616 | the data loop stores each byte as it is read and sums it |
| `HexFile.LoadObj` | core.c:581-635 | the loader's loop returns the code and leaves the writes of the parsing function, for any text, well formed or not, whose records lie inside code memory |
| `SfrBus.ComposeBit` | sim/bus.c:79-97 | each bit read is the value of the last subscriber claiming it, else the latch bit |
| `SfrBus.LastClaimantDecides` | sim/bus.c:89-95 | the claimant after which none claims the bit decides it |
| `SfrBus.OrderIndependent` | sim/bus.c:89-95 | for subscribers that own different bits any order reads the same |
| `SfrBus.SimBus.OnRead` | sim/bus.c:190-204 | a subscription, direct or forwarded, is appended to the host's list |
| `SfrBus.SimBus.Read` | sim/bus.c:79-97 | the fan-out loop computes that composition |
| `SfrBus.LookupExact` | sim/bus.c:48-62 | at one moment, the cache answers as a linear search for every CPU if and only if the cached bus is the one a search would find |
| `SfrBus.NextCoherent` | sim/bus.c:99-172 | a step spoils that if and only if it opens a new bus for the CPU of the cached one, in a free slot with no bus of that CPU before it |
| `SfrBus.CacheExactOverRun` | sim/bus.c:48-172 | so over any run of opening, closing and lookup the cache is exact at every moment if and only if no step of the run is such an opening |
| `SfrBus.CacheTransparent` | sim/bus.c:48-172 | over any create, destroy and lookup run with one bus per CPU, it does |
| `SfrBus.TwoBusesDisagree` | sim/bus.c:48-172 | with two buses on one CPU it need not: a concrete run |
| `SfrBus.BusRegistry.BusForCpu` | sim/bus.c:48-62 | the answer and the cache left are those of the lookup function |
| `SfrBus.BusRegistry.BusCreate` | sim/bus.c:99-130 | first free slot or a table twice the size |
| `SfrBus.BusRegistry.BusDestroy` | sim/bus.c:146-172 | slot and cache cleared, the table given back with the last bus |
| `LcdController.NibblesAreBytes` | sim/devices/hd44780.c:152-221 | over any transfers that leave the interface width alone, ticks between them, the 4-bit chip stays like the 8-bit one and the host reads the same bytes |
| `LcdController.WaitInsideWrite` | sim/devices/hd44780.c:152-171 | a tick between the nibbles of a written byte might as well come before it |
| `LcdController.WaitInsideRead` | sim/devices/hd44780.c:173-221 | a tick between the nibbles of a read leaves the same chip, but the host gets the same byte if and only if no busy period ends with it, or memory is read and the byte latched before has the same high nibble |
| `LcdController.MixedNibbles` | sim/devices/hd44780.c:173-221 | a chip on which it does not: 42h out of 41h and 52h |
| `LcdController.PulseIsEdge` | sim/devices/hd44780.c:223-239 | E up and down is exactly one read or one write edge |
| `LcdMemory.AddressAfter` | sim/devices/hd44780.c:62-150 | the address the host reads back after every instruction |
| `LcdMemory.WidthAfter` | sim/devices/hd44780.c:129-135 | function set changes the width and, but for the data latch, nothing else |
| `LcdMemory.MemoryAfter` | sim/devices/hd44780.c:62-150 | which memory is accessed after every instruction, and that only a clear changes one |
| `LcdMemory.ShiftAfter` | sim/devices/hd44780.c:90-128 | which instructions shift the display |
| `LcdMemory.EntryAfter` | sim/devices/hd44780.c:90-113 | which set the direction of counting and the shift on writing |
| `LcdMemory.TextStands` | sim/devices/hd44780.c:66-84 | a text written stands at successive addresses in the entry mode's direction, all other memory kept |
| `LcdMemory.TextRoundTrip` | sim/devices/hd44780.c:62-221 | set an address, write up to 128 characters, set it again, read them back |
| `LcdController.Hd44780.CommitWrite` | sim/devices/hd44780.c:62-150 | a whole byte is stored or obeyed, or ignored while busy |
| `LcdController.Hd44780.OnEWrite` | sim/devices/hd44780.c:223-239 | a level written to E causes a read on its rising edge, a write on its falling one, or nothing |

## Where the code and its comments differ

- `sim/devices/ds1302.c:123-125` says a leftover fraction of a second is dropped.
  Ticks are added one at a time, so while `tick_accum` starts below `clock_hz`
  there never is one: `Ds1302Clock.StepNDivides` shows the remainder is kept.
- `sim/bus.c:41-43` gives the cached bus as a shortcut for the search. It is one
  over a run exactly when no step is the opening `SfrBus.NextCoherent` singles out
  (`SfrBus.CacheExactOverRun`); `SfrBus.TwoBusesDisagree` is a run with one.
- `sim/plugin.c:437-439` speaks of telling whether a zero-offset jump was taken.
  For an opcode without a taken entry in the clock table the jump is not patched
  and always reported as not taken (`CondJumps.SteppedExact`); its clocks are
  right either way (`Stepping.JumpClocks`).
- `sim/devices/enc28j60.c:108-113` derives the dummy byte from a driver's names for
  bank 2 registers; the code gives one to the shared registers too while bank 2 is
  selected (`EncRegisters.ReadAnswers`, `EncRegisters.SharedInBankTwo`).
- `core.c:43` says P3.1 is set according to the bit being sent. The bit is not
  masked: `Timers.LineExact` names the nine bytes for which that makes no
  difference.
- `core.c:545-549` says a warm reset leaves the power-off flag of PCON alone, but
  the register file has been zeroed before: it keeps the flag only if it was clear
  (`Core.WarmResetClearsPowerFlag`).

## Left out

- Integer widths of counters: byte, tick, clock, frame and statistics counts and the command's byte index are unbounded here, so wrap-around after 2^31 or 2^32 events is not modelled.
- The ENC28J60's register file is one array of 113 slots and its frame log one array of 49152 bytes instead of nested arrays; the fault-injection and inspection calls, the PHY, DMA, hash and pattern filters are not modelled.
- EncRing.RingIsFifo: assumes releases are atomic, EPKTCNT, ERXWRPT and EIR.PKTIF are not written directly, and the queue stays at or below 255, the packet counter's range; the commands between arrivals are buffer reads.
- EncCore.Inject: excludes an accepted packet that would be stored past the end of the 8192-byte buffer, where the source writes outside its array. That takes an ERXND lowered below the write pointer with ERXST not written after it (`EncRing.ByteKeepsWriter`, `EncRing.ArrivalKeepsWriter`).
- EncDevice.Enc28j60.InjectRx: the same exclusion.
- EncDevice.Enc28j60.StorePacket: the same exclusion.
- EncTx.LogAgreesWithHistory: the same exclusion, for the arrivals of the run.
- The broadcast bit of a packet's status follows the first address byte alone, as in the source; no claim equates it with a broadcast address.
- InterruptRuns.ServiceReturns: needs 256 bytes of internal RAM and handlers that leave the live stack below them alone, as any return does.
- Opcodes other than the conditional jumps, RETI, DA A and the immediate forms of ADDC and SUBB are any function of the state with a returned delay; the register, indirect and direct forms of ADDC and SUBB differ only in where the operand comes from.
- GATE and counter inputs, external interrupt edges, timer 2 and the one-instruction interrupt delay after RETI or a write to IE or IP are not implemented by the source.
- The exception callback is always present here; the source skips it when it is null, which changes no other state.
- CondJumps.SteppedExact: SFR callbacks neither see nor set PC, do not write code memory, and do not add or remove RAM.
- Stepping.Sim.StepInstruction: hooks are represented by what they answer; what else they do to devices is not modelled, nor is the loop over instruction-mode steps, whose end depends on every step costing at least one clock.
- HexFile.LoadObj: a text whose records lie outside code memory is excluded, as the source would write outside its array; the return value -1 for a file that cannot be opened is not part of the model.
- The DS1302's write-protect and clock-halt bits, 12-hour mode and RAM commands are not enforced or not modelled by the source.
- SfrBus.SimBus.OnRead: the limit on subscribers per register is a precondition, as the source asserts it; allocation failure is not modelled.
- LcdMemory.ShiftAfter: bit 3 of the shift instruction selects the cursor here, as in the code; the HD44780U data sheet has it select the display.
- LcdController.NibblesAreBytes: address counter and shift are unbounded integers; the text-line helper is not modelled.
- The curses and graphical front ends, Python bindings, dynamic loading and method marshalling, external data memory, pins and boards, and the simpler devices (servo, fan, touch controller, shift registers, digit display).
