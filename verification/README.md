# Verification of the hexbus debug port

The hexbus debug port lets a host program read and write a device's bus over a
serial line, in text.  On the device it is a chain of small clocked modules that
hand words and characters to each other with `stb` and `busy`; on the host it is
the `HEXBUS` class.  Each module's own checks look one clock ahead.  This project
models the modules clock by clock and proves what they deliver together, over
whole runs, for every input waveform, every stall and every delay.

## What is modelled

Each clocked module is a record of its registers with a function `Next`, the
value of every register after one clock, and a class whose `Step` computes all
next values from the old registers and then assigns them; `Step` is proved equal
to `Next`.  The theorems speak of runs of `Next`, with histories of what was
taken and what was handed on.

- `HexWord`, `Sequences`: the 34-bit response word, its text, and the filters the
  stream theorems are stated with.
- `HbInts`, `HbIdle`, `HbDeword`, `HbGenhex`, `HbNewline`, `ResponseChain`,
  `ChainDrains`: the response half of hbbus, five stages in a row.
- `HbDechex`, `HbPack`, `CommandStream`: the command half, against a parser of
  the text, and the text the host prints.
- `BusMachine`, `HbExec`, `HbExecAxi`: a sequential machine over an address
  register, and the Wishbone and AXI4-Lite masters that refine it.
- `HbBus`, `PortLimits`, `HbConsole`, `TestBus`: the whole port; how much it holds and
  what pace suits it; the port with a console channel beside it; the port with the
  serial receiver and the example slaves.
- `WbScope`, `ScopeHost`: the capture buffer and the host's view of it.
- `SerialLine`, `TxUart`, `RxUart`, `UartSimRx`, `UartSimTx`, `UartSim`,
  `UartLink`: both ends of the serial line, and the simulator's.
- `HostLink`, `HexHost`, `ReadErrors`, `HostWrite`, `LinkHistory`, `HexBus`: the host:
  reading words out of the response text, reads with a cached address and how they
  fail, and writes with flow control over the history of what went out on the link,
  what came in, and when the host asked.
- `WriteEffect`, `EndToEnd`: what the text of a write does to the memory; the response
  chain, and the whole port, in front of the host.

Runs of the response chain and the executors restart their histories at a reset.
The serial modules are stated over traces, `tr(t)` being the registers on clock
`t`; `AtRuns` shows that such traces exist.

## Main results

1. `ResponseChain.ResponseStream`, `WordAtomicity`, `DeliveredInLines`,
   `ChainDrains.Drains`: nothing is lost, doubled or reordered in the five stages, no
   CR, LF, 'I' or 'Z' ever comes inside a word, and all of it is delivered.
2. `HbInts.InterruptConservation`, `PulsesReported`, `HbBus.InterruptsThroughPort`: the
   interrupt words are the assertions in the waveform of the line, and which pulses are.
3. `HbExec.Refinement`, `HbExecAxi.Refinement`, `HbExecAxi.OneSource`,
   `BusMachine.DifferenceAfterAbsolute`: both bus masters refine one sequential machine;
   against every AXI slave that goes by its own counts the OR of AXI responses mixes
   nothing; difference addresses are sums.
4. `WbScope.ReadBack`, `LookAhead`, `TriggerPlacement`, `StatusRead`,
   `ScopeHost.HostMarksTrigger`: the look-ahead read pipeline agrees with "the last
   samples, oldest first", and exactly when it does; where the triggering sample is, and
   that the host, from the status word it reads, marks it.
5. `UartLink.RoundTrip`, `TargetToSimulator`, `SimulatorToTarget`: every byte sent
   is received once, in order, one fixed delay later, within stated bit-time tolerances.
6. `CommandStream.PacksWhatIsParsed`, `CommandRoundTrip`, `HbBus.CommandsTaken`,
   `TestBus.LineExecutes`, `HostHears`: what the host prints is what the device executes,
   from the bits on the line to the executor, the ignored busy signal never costing a
   command; and what the device delivers is what the host's end of the line receives.
7. `HbBus.ResponsesDelivered`, `PortLimits.FloodOverruns`, `PacedLosesNothing`: every
   response is delivered or held if and only if none met a full first stage; a run that
   loses one; and a pace of the reader that never does.
8. `HexBus.HexBus.WriteV`, `HostWrite.AcksConserved`, `PollsTell`,
   `WriteEffect.WritesReachMemory`: in the order the link saw them, writes stay at most
   two ahead of their acknowledgements, which are counted once each; the call throws
   exactly at the end of an error word; and the words reach the memory.
9. `HexHost.SessionReadsMemory`, `ReadErrors.ReadVMeetsError`,
   `EndToEnd.ReadsThroughChain`, `ReadsThroughPort`: any sequence of reads returns the
   memory's words though addresses are sent only when the cache does not have them; a
   fault is thrown with its address; and the text that the whole port delivers from
   power-up, the word of its reset first, is text the host reads so.

Where code and documentation disagree the code is followed.  `encode_address` is meant to
skip an address the device has already; for a word-aligned address that is not to
advance the low bit is set first, and `HexHost.SkippedOnlyWhenAdvancing` shows that an
address is skipped exactly between two advancing transfers.  An unset length field
of the control word is a length of one to `SCOPE::ready` and no length to
`SCOPE::scoplen`; both are kept.

## Model

| member | source | states |
|---|---|---|
| HexWord.GxChar | hexbus/rtl/hbgenhex.v:89-122 | which five-bit units are printed as CR, digits, I and Z, and that LF and the fill character never are |
| HexWord.Spellings | hexbus/rtl/hbgenhex.v:89-122 | the reset, error, interrupt and idle words are shown as one letter each, an acknowledgement as K and eight zeros |
| CommandStream.UnitsTellApart | hexbus/rtl/hbdeword.v:65-106 | the units a word is sent as are those of no other: they tell its kind, and its payload or, of a special word, its tag |
| HexWord.BusResponseIsPayload | hexbus/rtl/hbexec.v:292-325 | no character of a response the executors give can be taken for line structure, an interrupt or an idle note |
| HexWord.PayloadOfResponses | hexbus/rtl/hbidle.v:72-109 | dropping the added words from a word stream drops no payload character of its text |
| HbInts.Conserves | hexbus/rtl/hbints.v:66-130 | one clock keeps: words taken equal words handed on and held, interrupt words apart |
| HbInts.Reachable | hexbus/rtl/hbints.v:66-130 | that conservation for every run since a reset, for every stall and interrupt waveform |
| HbInts.CountStep | hexbus/rtl/hbints.v:66-130 | one clock keeps: interrupt words handed on and the pending one are as many as the assertions counted from the waveform of the line, and int_state is low exactly when that waveform leaves the line armed |
| HbInts.InterruptConservation | hexbus/rtl/hbints.v:66-130 | over every run: accepted words less the loaded one come out, and interrupt words out plus the pending one equal the assertions in the waveform of the line |
| HbInts.ArmedWhenSettled | hexbus/rtl/hbints.v:66-75 | the line is armed if and only if it has never been high or has been low since a clock on which no interrupt word was owed |
| HbInts.PulsesReported | hexbus/rtl/hbints.v:66-85 | there are never more interrupts than pulses of the line, and as many if and only if each pulse finds the line armed |
| HbInts.PresentedNext | hexbus/rtl/hbints.v:97-126 | a pending interrupt word is presented on the next clock if and only if no response comes in and either one is being handed on or, with nothing presented, downstream is busy |
| HbInts.StaysPending | hexbus/rtl/hbints.v:77-126 | an interrupt stays pending until its word is taken, and its word presented until it is taken or a response overwrites it |
| HbInts.Ints.Step | hexbus/rtl/hbints.v:66-130 | all five registers after one clock |
| HbIdle.Conserves | hexbus/rtl/hbidle.v:76-109 | idle words apart, one clock keeps: words taken equal words handed on and held; an emptied output holds a stale word only right after a reset |
| HbIdle.IdleAppears | hexbus/rtl/hbidle.v:76-109 | an idle word is presented on the clock after a full period without a word, not earlier, and stays until it is taken |
| HbIdle.Idle.Step | hexbus/rtl/hbidle.v:76-109 | the registers after one clock, the idle period a parameter |
| HbDeword.Conserves | hexbus/rtl/hbdeword.v:65-106 | one clock keeps: the units handed on, with those still in the shift register, are the units of the words taken, in order |
| HbDeword.HeldStep | hexbus/rtl/hbdeword.v:65-106 | one clock shifts out exactly the first unit held, or loads a whole word |
| HbDeword.Deword.Step | hexbus/rtl/hbdeword.v:65-106 | the registers after one clock |
| HbGenhex.Conserves | hexbus/rtl/hbgenhex.v:80-129 | one clock keeps: the characters handed on and held are those of the units taken, in order |
| HbGenhex.Genhex.Step | hexbus/rtl/hbgenhex.v:80-129 | the registers after one clock |
| HbNewline.InvStep | hexbus/rtl/hbnewline.v:88-131 | the registers always mean one of: nothing, a CR that may be overwritten, a line feed, or a character |
| HbNewline.Conserves | hexbus/rtl/hbnewline.v:88-131 | line structure apart no character is added, lost or reordered, and every CR handed on is followed at once by an LF |
| HbNewline.CrGivesWay | hexbus/rtl/hbnewline.v:88-131 | a CR that has not been taken gives way to a character that arrives; one that has been taken is followed by the LF first |
| HbNewline.ScanIsLines | hexbus/rtl/hbnewline.v:88-131 | text the line scanner accepts is nonempty lines with CR LF and one open line, and the scanner knows where in it a line stands |
| HbNewline.NewlineGrammar | hexbus/rtl/hbnewline.v:88-131 | for CR- and LF-free input what is delivered is nonempty lines ended by CR LF and one open line: no blank line, no bare CR |
| HbNewline.Newline.Step | hexbus/rtl/hbnewline.v:88-131 | all five registers after one clock |
| ResponseChain.StagesStep | hexbus/rtl/hbbus.v:132-190 | one clock of the five wired stages keeps every stage invariant and that each takes exactly what the one before hands on |
| ResponseChain.AtomicStep | hexbus/rtl/hbbus.v:132-190 | a stage with no character of a word in it stands between words, and one clock keeps that for all three character stages |
| ResponseChain.Reachable | hexbus/rtl/hbbus.v:132-190 | both invariants in every reachable state, for every stall, interrupt and reset schedule |
| ResponseChain.WordsConserved | hexbus/rtl/hbbus.v:132-160 | the words put on the wire and those still held are the words accepted, interrupt and idle words apart |
| ResponseChain.TextConserved | hexbus/rtl/hbbus.v:160-190 | characters delivered and held are the text of the words put on the wire, line structure apart |
| ResponseChain.ResponseStream | hexbus/rtl/hbbus.v:132-190 | characters taken by the transmitter less CR, LF, I and Z, with exactly what the five stages hold, are the rendered accepted words |
| ResponseChain.WordAtomicity | hexbus/rtl/hbbus.v:160-190 | a CR or LF is delivered only where the text before it ends with the last character of a word |
| ResponseChain.DeliveredInLines | hexbus/rtl/hbbus.v:177-190 | what the transmitter takes is whole nonempty CR LF lines and an open one |
| ResponseChain.InterruptsReported | hexbus/rtl/hbbus.v:132-150 | every assertion in the waveform of the interrupt line is one interrupt word on the wire, held, or pending |
| ChainDrains.WorkShrinks | hexbus/rtl/hbbus.v:132-190 | a measure of what the five stages still have to do never grows while nothing comes in, and shrinks on every clock on which the transmitter is free |
| ChainDrains.Drains | hexbus/rtl/hbbus.v:132-190 | with nothing new coming in, once the transmitter has been free on 145 clocks it has taken the text of every accepted word and the line has been ended |
| HbDechex.Token | hexbus/rtl/hbdechex.v:60-105 | which characters are digits and which are commands, all others being separators; a digit and a command have the code that the hex stage prints as that character, but for W, which has the code of its answer K |
| HbDechex.Dechex.Step | hexbus/rtl/hbdechex.v:56-105 | the registers after one clock |
| HbPack.Pack.Step | hexbus/rtl/hbpack.v:80-126 | the registers after one clock |
| CommandStream.PackTakes | hexbus/rtl/hbpack.v:80-126 | one token does to the packer what its character does to the parser: digits modulo 2^32, a command letter or separator ends the word |
| CommandStream.PacksWhatIsParsed | hexbus/rtl/hbpack.v:80-126 | for bytes at any spacing the words packed are those a parser finds in the received text, short of its last character while that is in the first stage |
| CommandStream.ReadEight | hexbus/sw/hexbus.cpp:309-330 | eight printed digits are read back as the 32-bit value |
| CommandStream.ReadHex | hexbus/sw/hexbus.cpp:205-213 | the minimal digits of %x are read back as the value |
| CommandStream.ReadCommand | hexbus/sw/hexbus.cpp:205-213 | each printed command is read back as its word, an address still open until the next command |
| CommandStream.CommandRoundTrip | hexbus/sw/hexbus.cpp:309-330 | for every list of address, read and write commands the printed text parses to exactly that list |
| CommandStream.AnythingEnds | hexbus/rtl/hbpack.v:80-126 | any character but a digit, the fill or a reset completes the commands printed before it |
| CommandStream.FillIgnored | hexbus/rtl/hbdechex.v:60-63 | fill characters may stand anywhere and change nothing |
| CommandStream.ResetForgets | hexbus/rtl/hbpack.v:80-126 | a reset character drops an unfinished word, and what follows is parsed afresh |
| CommandStream.ReadsModulo | hexbus/rtl/hbpack.v:118-126 | of a number of any length the low 32 bits are kept |
| BusMachine.LazyAgrees | hexbus/rtl/hbexecaxi.v:242-268 | putting off the address echo until the address is used changes nothing but the echoes |
| BusMachine.ResponsesAreBusResponses | hexbus/rtl/hbexec.v:292-325 | every response of the sequential machine is an address, data, acknowledgement, error or reset word |
| BusMachine.DifferenceMoves | hexbus/rtl/hbexec.v:212-215 | a difference address is added to the address register modulo 2^30, and the sum is echoed |
| BusMachine.DifferenceAfterAbsolute | hexbus/rtl/hbexec.v:199-215 | an absolute address and a difference, with any commands after them, do what the one absolute address of their sum does, but for the first echo |
| HexHost.DifferenceReads | hexbus/rtl/hbexec.v:199-325 | reads after a difference return the memory's words from the sum on |
| BusMachine.EchoBeforeAnswer | hexbus/rtl/hbexecaxi.v:192-268 | of several addresses in a row only the last is echoed, before the answer to the command that uses it |
| HbExec.RefinesStep | hexbus/rtl/hbexec.v:125-325 | one clock against any legal slave keeps the simulation of the sequential machine, idle, requesting or waiting |
| HbExec.Refinement | hexbus/rtl/hbexec.v:125-325 | against every slave that answers each request once, with any stall and delay: responses and requests are those of the sequential machine over (address mod 2^30, increment), echoes and order included |
| HbExec.OutputIsBusResponse | hexbus/rtl/hbexec.v:292-325 | every word handed to the response chain is one of the five kinds |
| HbExec.HandsOnDecided | hexbus/rtl/hbexec.v:238-325 | every response decided, an echo included, is handed on within two clocks when nothing else comes in |
| HbExec.Exec.Step | hexbus/rtl/hbexec.v:125-325 | all registers after one clock |
| HbExec.Exec.Handshake | hexbus/rtl/hbexec.v:125-193 | o_wb_cyc, o_wb_stb and o_wb_we after one clock |
| HbExec.Exec.Address | hexbus/rtl/hbexec.v:199-244 | o_wb_addr, newaddr and inc after one clock, difference addresses included |
| HbExec.Exec.Respond | hexbus/rtl/hbexec.v:292-325 | the response registers after one clock |
| HbExecAxi.OneSource | hexbus/rtl/hbexecaxi.v:139-268 | in every run against a slave that only answers what it has taken and not answered: at most one transaction is outstanding, each answer is taken on the clock it is offered, and at most one of BVALID, RVALID and a flushed echo makes up a response word |
| HbExecAxi.LegalIsExpected | hexbus/rtl/hbexecaxi.v:139-185 | a slave that goes by its own counts of requests taken and answered answers only while BREADY or RREADY is high and nothing is left to offer |
| HbExecAxi.BalancedStep | hexbus/rtl/hbexecaxi.v:139-185 | one clock keeps: the slave owes a write answer exactly while BREADY is high with AW and W both taken, and a read answer exactly while RREADY is high with AR taken |
| HbExecAxi.RequestWhole | hexbus/rtl/hbexecaxi.v:139-161 | a write request is whole on exactly the clock that takes the last of AW and W |
| HbExecAxi.OffersAreStable | hexbus/rtl/hbexecaxi.v:139-217 | VALID, address and data stay unchanged until READY, on all three request channels |
| HbExecAxi.RefinesStep | hexbus/rtl/hbexecaxi.v:139-295 | one clock against any legal slave keeps the simulation, with AW and W taken in either order any number of clocks apart |
| HbExecAxi.Refinement | hexbus/rtl/hbexecaxi.v:139-295 | at most one transaction is outstanding, requests are the sequential machine's, and responses too once echoes are deleted: the machine that hbexec refines |
| HbExecAxi.ExecAxi.Step | hexbus/rtl/hbexecaxi.v:139-295 | all registers after one clock |
| HbExecAxi.ExecAxi.WriteChannels | hexbus/rtl/hbexecaxi.v:139-161 | AWVALID, WVALID and BREADY after one clock |
| HbExecAxi.ExecAxi.ReadChannels | hexbus/rtl/hbexecaxi.v:168-185 | ARVALID and RREADY after one clock |
| HbExecAxi.ExecAxi.Address | hexbus/rtl/hbexecaxi.v:192-217 | the address and increment registers after one clock |
| HbExecAxi.ExecAxi.Unsent | hexbus/rtl/hbexecaxi.v:192-217 | the flag of an echo still to be sent, after one clock |
| HbExecAxi.ExecAxi.Respond | hexbus/rtl/hbexecaxi.v:242-295 | the OR-composed response word and its strobe after one clock |
| HbBus.InvStep | hexbus/rtl/hbbus.v:90-190 | one clock of the whole port keeps the invariants of parser, executor and chain and the links between them |
| HbBus.LinksStep | hexbus/rtl/hbbus.v:107-145 | one clock keeps: commands and responses pass from part to part unchanged and in order, or one has been dropped and is missing from then on |
| HbBus.AtThePins | hexbus/rtl/hbbus.v:90-192 | on a clock the text received grows by the byte at the receiver, the text delivered by the character the transmitter takes, and the requests by the one the slave does not stall |
| HbBus.InterruptsThroughPort | hexbus/rtl/hbbus.v:132-160 | in every run the assertions in the waveform of the port's interrupt line since the last reset are the interrupt words on the wire, held, or pending |
| HbBus.CommandsTaken | hexbus/rtl/hbbus.v:90-130 | in every run the commands taken are those parsed from the received text if and only if no command met a busy executor |
| HbBus.ResponsesDelivered | hexbus/rtl/hbbus.v:132-190 | in every run the text delivered, held and still to come is that of the sequential machine's responses if and only if no response met a full first stage |
| HbBus.Bus.Step | hexbus/rtl/hbbus.v:90-192 | the eight wired modules after one clock |
| PortLimits.Capacity | hexbus/rtl/hbbus.v:132-190 | while no response was dropped the text of those handed on is at most 29 characters ahead of the text delivered |
| PortLimits.FloodOverruns | hexbus/rtl/hbints.v:66-130 | an address command on every clock and a stalled transmitter lose a response within 35 clocks, from every initial state and whatever the slave |
| PortLimits.LastIsWhole | hexbus/rtl/hbints.v:66-130 | a full first stage holds the last response accepted, and no character of it has been delivered |
| PortLimits.PacedLosesNothing | hexbus/rtl/hbbus.v:132-190 | if each response is handed on only once the reader has seen the first character of the one before, none is ever dropped and all are delivered or held |
| HbConsole.SplitStep | hexbus/rtl/hbconsole.v:205-241 | one clock keeps both channels apart and complete |
| HbConsole.ChannelsKept | hexbus/rtl/hbconsole.v:217-241 | in every run the bytes sent, with the one held, split by their top bit into exactly the bytes of each channel in order |
| HbConsole.ChainFeedsMerge | hexbus/rtl/hbconsole.v:140-241 | with the response chain in front, stalled by the merge, the bus channel carries exactly what the chain delivers |
| HbConsole.BusServed | hexbus/rtl/hbconsole.v:217-241 | the bus channel goes first and waits only for the transmitter |
| HbConsole.ConsoleServed | hexbus/rtl/hbconsole.v:217-241 | the console is served once the bus channel is silent for two clocks and the transmitter is free |
| HbConsole.Arbiter.Step | hexbus/rtl/hbconsole.v:217-236 | ps_full and ps_data after one clock |
| TestBus.Answered | bench/rtl/testbus.v:154-292 | a request is taken at once and one answer comes, while the executor waits for it |
| TestBus.PaceKept | bench/rtl/testbus.v:277-293 | with bytes seven clocks apart no packed word meets a busy executor, and each stage works a known time after a byte |
| TestBus.NoCommandDropped | bench/rtl/testbus.v:98-151 | whatever is on the serial line, no command is dropped although the busy signal is ignored, every request being answered within four clocks; so the executor takes exactly the commands parsed from the bytes received |
| TestBus.BitsOfValue | bench/rtl/rxuartlite.v:174-176 | the byte that hbbus takes has exactly the bits that were on the line, the first being the lowest |
| TestBus.LineExecutes | bench/rtl/testbus.v:98-151 | if a line has carried, within tolerance, the bits of the text a host prints for any list of commands, the executor has taken exactly those commands two clocks after the last byte |
| TestBus.HostHears | bench/rtl/testbus.v:111-151 | behind the transmitter the host's end of the line has received exactly the text hbbus had delivered one fixed delay earlier |
| TestBus.WorldReaches | bench/rtl/testbus.v:118-136 | the data and errors of the slaves and the interrupt line reach the executor and the response chain |
| TestBus.SlavesAnswer | bench/rtl/testbus.v:152-292 | which addresses each slave answers, after how many clocks, and that every other address is an error after one |
| WbScope.WindowStep | bench/rtl/wbscope.v:349-400 | a write moves the memory window on by one sample, oldest first |
| WbScope.Reachable | bench/rtl/wbscope.v:280-400 | in every reachable state the memory is the last samples written and the counters place the trigger |
| WbScope.LookAhead | bench/rtl/wbscope.v:449-474 | once stopped, the address worked out a clock ahead is the needed one if and only if no control write has just cleared a nonzero read address |
| WbScope.ReadBack | bench/rtl/wbscope.v:449-509 | the j-th data read since the read address was cleared is answered with the j-th oldest of the last size samples, for any spacing of reads |
| WbScope.StaleRead | bench/rtl/wbscope.v:449-474 | a read on the heels of a control write asks for the oldest sample and is answered with the one at the read address just cleared |
| WbScope.ReadsStale | bench/rtl/wbscope.v:449-474 | a concrete run in which such a read returns 12 although the oldest sample is 11 |
| WbScope.TriggerPlacement | bench/rtl/wbscope.v:280-324 | the triggering sample is at index size-1-holdoff if and only if the stopping clock carried a sample, and one later otherwise |
| WbScope.AlwaysSampled | bench/rtl/wbscope.v:315-324 | with i_ce held high the stopping clock always carries a sample |
| WbScope.TriggerReadBack | bench/rtl/wbscope.v:449-509 | with i_ce held high, read number size-1-holdoff returns the triggering sample |
| WbScope.MisplacedTrigger | bench/rtl/wbscope.v:315-324 | a concrete run with a gap in i_ce whose triggering sample is nowhere in the memory |
| WbScope.ControlFields | bench/rtl/wbscope.v:490-499 | the length, holdoff and ready fields of the control word are what the host unpacks |
| WbScope.StatusRead | bench/rtl/wbscope.v:449-509 | a read of the status register is answered two clocks later with every flag, the memory size and the holdoff of the scope |
| WbScope.LiveRead | bench/rtl/wbscope.v:500-505 | a data read while capturing is answered with the sample on the input |
| WbScope.ResetRequested | bench/rtl/wbscope.v:191-224 | a control write with bit 31 low sets the holdoff and clears the capture on the clock after |
| WbScope.TriggersAsControlled | bench/rtl/wbscope.v:191-300 | after a control write that keeps it running the scope triggers on exactly the primed samples that bit 27 forces, or the trigger line unless bit 26 disables it |
| WbScope.DisabledNeverTriggers | bench/rtl/wbscope.v:280-300 | a disabled scope that is not forced never triggers |
| WbScope.InterruptsOnce | bench/rtl/wbscope.v:518-528 | the interrupt is high on exactly the clock that finds the scope newly stopped, unless disabled |
| WbScope.Scope.Step | bench/rtl/wbscope.v:191-528 | all registers and the memory after one clock |
| WbScope.Scope.Store | bench/rtl/wbscope.v:393-400 | the write into the memory array, and nothing else changed in it |
| WbScope.Scope.Trigger | bench/rtl/wbscope.v:280-324 | triggered, holdoff counter and stopped after one clock |
| WbScope.Scope.WriteAddress | bench/rtl/wbscope.v:349-372 | write address and primed after one clock |
| WbScope.Scope.Respond | bench/rtl/wbscope.v:449-509 | the read pipeline after one clock |
| WbScope.Scope.Configure | bench/rtl/wbscope.v:191-224 | configuration and holdoff after one clock |
| ScopeHost.Scope.Scoplen | sw/scopecls.cpp:91-117 | length and holdoff are unpacked once, and a zero field leaves the length unknown |
| ScopeHost.Scope.Ready | sw/scopecls.cpp:58-66 | stopped and triggered, with a zero field read as a length of one |
| ScopeHost.Scope.TriggerColumn | sw/scopecls.cpp:367-373 | exactly the entry length-holdoff-1 of the trace is marked |
| ScopeHost.HostMarksTrigger | sw/scopecls.cpp:367-373 | the index marked, from the status word read over the bus, is the one where the triggering sample is read back, and that word says ready, for every run sampled on every clock |
| ScopeHost.HostWaits | sw/scopecls.cpp:58-66 | the word read over the bus says ready if and only if the scope has stopped and triggered |
| SerialLine.InWindow | bench/rtl/rxuartlite.v:204-214 | if the ninth sample is in the stop bit then every sample is in its own bit |
| SerialLine.SamplesTheByte | bench/rtl/rxuartlite.v:174-176 | a receiver within tolerance samples the bits that were framed |
| TxUart.BitTime | bench/rtl/txuartlite.v:165-244 | a bit time lasts exactly its clocks with the line held, and the next begins with the next bit |
| TxUart.StopTime | bench/rtl/txuartlite.v:215-244 | the last state is one clock short, so that the next byte can start exactly ten bit times after this one |
| TxUart.SendsFrame | bench/rtl/txuartlite.v:103-244 | a byte accepted at rest is framed on the line from the next clock, nothing else is accepted meanwhile, and it ends at rest |
| TxUart.Transmits | bench/rtl/txuartlite.v:103-244 | for every schedule of offers the line carries exactly what was accepted, frames never overlapping, and is high otherwise |
| TxUart.FullRate | bench/rtl/txuartlite.v:215-244 | a byte waiting is accepted exactly ten bit times after the one before |
| TxUart.AtRuns | bench/rtl/txuartlite.v:103-244 | the recursively computed registers are a run |
| TxUart.Transmitter.constructor | bench/rtl/txuartlite.v:103-217 | the power-up values |
| TxUart.Transmitter.Step | bench/rtl/txuartlite.v:103-244 | all registers after one clock |
| RxUart.Sync | bench/rtl/rxuartlite.v:103-112 | the synchroniser shows the line one, two and three clocks late |
| RxUart.CountsFromEdge | bench/rtl/rxuartlite.v:119-135 | from the edge on the change counter counts the clocks |
| RxUart.StartBit | bench/rtl/rxuartlite.v:119-164 | an edge after a high line starts the first bit time half a bit time later |
| RxUart.DataBit | bench/rtl/rxuartlite.v:174-232 | a data bit time samples the line exactly once, on a known clock |
| RxUart.StopBit | bench/rtl/rxuartlite.v:187-232 | the stop bit time ends with the byte handed on and the receiver idle |
| RxUart.NoStopBit | bench/rtl/rxuartlite.v:140-232 | without a stop bit no byte is handed on, and the receiver waits |
| RxUart.WaitsForHigh | bench/rtl/rxuartlite.v:140-164 | a waiting receiver hands on nothing while the line stays low, and is ready once it has been high |
| RxUart.ReceiveFrame | bench/rtl/rxuartlite.v:106-232 | one frame is handed on as exactly its byte, on one known clock |
| RxUart.Receives | bench/rtl/rxuartlite.v:106-232 | whatever a line carries within tolerance is handed on once each and in order, one fixed delay after it was accepted |
| RxUart.BytesApart | bench/rtl/rxuartlite.v:140-232 | for any waveform bytes are handed on more than nine bit times apart |
| RxUart.AtRuns | bench/rtl/rxuartlite.v:106-232 | the recursively computed registers are a run |
| RxUart.Receiver.constructor | bench/rtl/rxuartlite.v:103-223 | the power-up values |
| RxUart.Receiver.Step | bench/rtl/rxuartlite.v:106-232 | all registers after one clock |
| UartSimRx.CountsFromEdge | bench/cpp/uartsim.cpp:180-183 | while the line is low the change counter has counted the ticks since the edge, whatever the state machine does |
| UartSimRx.Start | bench/cpp/uartsim.cpp:185-192 | however late the start bit is seen, the first sample is taken one and a half bit times after its edge |
| UartSimRx.ReceiveFrame | bench/cpp/uartsim.cpp:180-225 | one frame is written out as exactly its byte, on one known tick |
| UartSimRx.NextLevel | bench/cpp/uartsim.cpp:185-199 | after a frame the next start bit is seen on time or late by a bounded number of ticks |
| UartSimRx.Receives | bench/cpp/uartsim.cpp:180-225 | whatever a line carries within tolerance, exactly back to back included, is written out once each and in order, one fixed delay later |
| UartSimTx.BitTime | bench/cpp/uartsim.cpp:283-293 | each bit is on the line for exactly one bit time |
| UartSimTx.SendsFrame | bench/cpp/uartsim.cpp:227-295 | a byte read between frames is framed from the same tick on |
| UartSimTx.Transmits | bench/cpp/uartsim.cpp:227-295 | for every schedule the line carries exactly what is read and is high otherwise |
| UartSim.Simulator.constructor | bench/cpp/uartsim.cpp:99-111 | both halves idle, everything else arbitrary |
| UartSim.Simulator.RawTick | bench/cpp/uartsim.cpp:174-296 | one tick of both halves, the level driven and the byte written |
| UartSim.Simulator.ReceiveTick | bench/cpp/uartsim.cpp:180-225 | one tick of the receive half |
| UartSim.Simulator.TransmitTick | bench/cpp/uartsim.cpp:227-295 | one tick of the transmit half |
| UartLink.RoundTrip | bench/rtl/rxuartlite.v:106-232 | bytes sent by txuartlite at Ct clocks a bit are received by rxuartlite at C whenever 9Ct <= 9C+C/2-1 and 9C+C/2 < 10Ct: on every clock received equals sent one delay earlier |
| UartLink.TargetToSimulator | bench/cpp/uartsim.cpp:180-225 | the same from txuartlite to the simulator |
| UartLink.SimulatorToTarget | bench/cpp/uartsim.cpp:227-295 | the same from the simulator to rxuartlite |
| UartLink.EqualBitTimes | bench/rtl/rxuartlite.v:204-214 | equal bit times are within both tolerances |
| HostLink.ReadsItems | hexbus/sw/hexbus.cpp:440-528 | readword on the characters of any sequence of words and line ends does what a reader of whole words does: same result, same registers, and it stops inside the same item |
| HostLink.ReadsPayload | hexbus/sw/hexbus.cpp:462-468 | eight digits are read as the payload of the word |
| HostLink.NextItemBegins | hexbus/sw/hexbus.cpp:468-524 | the first character of an item ends the one before, with its effect on the registers, exactly once |
| HexHost.ReadsNextData | hexbus/sw/hexbus.cpp:440-528 | past line ends, interrupt notes, fewer than three idle notes, the word of a reset and an echo the next data word is returned and the cached address advanced |
| HexHost.ReadsAll | hexbus/sw/hexbus.cpp:363-381 | n calls of readword return the next n data words in order |
| HexHost.AddressReaches | hexbus/sw/hexbus.cpp:300-335 | after the address command, or without it where the cache has the address, the device has the address and increment asked for |
| HexHost.SkippedOnlyWhenAdvancing | hexbus/sw/hexbus.cpp:300-335 | with a word-aligned cached address the address command is left out if and only if both transfers advance and the addresses are equal |
| HexHost.EchoIsNoNews | hexbus/sw/hexbus.cpp:501-507 | the echo of the address just sent agrees with what the host assumed, also where the word of a reset, which makes the host forget, comes before it |
| HexHost.DeviceAnswers | hexbus/rtl/hbexec.v:199-325 | the bus machine answers a read with its echo and the memory's words at consecutive addresses, leaving the memory as it was |
| HexHost.ReadVReadsMemory | hexbus/sw/hexbus.cpp:353-405 | readv returns the memory's words at a, a+4inc, and so on, its closing address check passes, and the cache holds the address after the last word, the device's |
| HexHost.MachineAnswers | hexbus/rtl/hbexec.v:199-325 | over any sequence of reads the bus machine answers as the cache predicts |
| HexHost.SessionReadsMemory | hexbus/sw/hexbus.cpp:353-405 | over any sequence of reads, from power-up or in mid-session, every word returned is the memory's, no check fires, and the text sent parses to exactly the commands the device is taken to have executed |
| HexHost.NotesTell | hexbus/sw/hexbus.cpp:474-512 | after any words the interrupt and error flags are set if and only if their word was among them, and every acknowledgement is counted |
| HexHost.ForgetsAtReset | hexbus/sw/hexbus.cpp:507-508 | from the word of a reset until an echo the host has no address, so that the next transfer begins with an address command |
| ReadErrors.ReadVMeetsError | hexbus/sw/hexbus.cpp:353-405 | a read that meets a bus error gets the memory's words before it, asks for no more, and throws the address of the word that failed |
| ReadErrors.GivesUp | hexbus/sw/hexbus.cpp:490-499 | the third idle note before a data word or an error throws, whatever else comes between |
| ReadErrors.ReadVSeesMismatch | hexbus/sw/hexbus.cpp:389-400 | if the device echoes another address than the one asked for the closing check fails, though every word was read |
| HostWrite.ReadIdle | hexbus/sw/hexbus.cpp:537-613 | all that is available is read unless an error is thrown |
| HostWrite.LeavesThrowing | hexbus/sw/hexbus.cpp:591-595 | when an error is thrown its letter is still to be ended and the error flag is set |
| HostWrite.ThrowsAgain | hexbus/sw/hexbus.cpp:537-613 | a call after that throws again if and only if it finds a character that is not a digit |
| HostWrite.IdleErrors | hexbus/sw/hexbus.cpp:591-595 | readidle throws exactly when what it has read ends with the first end of an error word, wherever in a word it began |
| HostWrite.IdleReadsItems | hexbus/sw/hexbus.cpp:537-613 | on whole words and line ends without an error readidle does to the registers what the end of each calls for, once and in order |
| HostWrite.IdleResets | hexbus/sw/hexbus.cpp:596-602 | the end of a reset's word clears the error and the address |
| HostWrite.PollsTell | hexbus/sw/hexbus.cpp:219-228 | however the text is cut up into calls, they throw exactly at the first end of an error word, count the acknowledgements up to there, and otherwise read all they find |
| HostWrite.IdleScans | hexbus/sw/hexbus.cpp:537-613 | readidle counts acknowledgements by letters and separators alone, wherever in a word a call is cut off |
| HostWrite.AcksConserved | hexbus/sw/hexbus.cpp:583-590 | every acknowledgement shown is counted exactly once, or begun and about to be |
| HostWrite.AnswersSuffice | hexbus/sw/hexbus.cpp:219-233 | lines of answers with an acknowledgement for each word and no error are enough for a write to complete |
| HostWrite.ReadVPerforms | hexbus/sw/hexbus.cpp:353-405 | what a read sends is its address, if needed, and one read command for each word asked for |
| LinkHistory.PacedByReading | hexbus/sw/hexbus.cpp:219-228 | reading on keeps it true that at no time more than two writes were sent and not acknowledged, acknowledgements counted never being taken back |
| LinkHistory.PacedByWriting | hexbus/sw/hexbus.cpp:203-222 | so does one more write, while at most one is unacknowledged |
| LinkHistory.CallReads | hexbus/sw/hexbus.cpp:219-228 | a call of readidle while the host waits keeps the pace, and that the host asks only while it waits |
| LinkHistory.SendsWord | hexbus/sw/hexbus.cpp:203-217 | the text that goes out with word n is one write command, after the address if it is the first, and makes what was sent the commands of n + 1 words |
| HexBus.HexBus.constructor | hexbus/sw/hexbus.h:67-78 | the values after construction; space, last address and increment have none |
| HexBus.HexBus.NoteWord | hexbus/sw/hexbus.cpp:474-512 | what the end of a word does to the registers |
| HexBus.HexBus.ReadWord | hexbus/sw/hexbus.cpp:440-528 | the loop of readword computes the specified result, registers and rest of the input, writing nothing and consuming exactly the characters it leaves out of the rest |
| HexBus.HexBus.EncodeAddress | hexbus/sw/hexbus.cpp:300-335 | the address command, or nothing if the cache has the address |
| HexBus.HexBus.Fill | hexbus/sw/hexbus.cpp:363-381 | the loop of readv fills the buffer with the words read and leaves the rest of it alone, one read command going out for each word asked for and the address before the first |
| HexBus.HexBus.ReadV | hexbus/sw/hexbus.cpp:353-405 | readv does to buffer, registers, input and the text written what the specified transfer does, errors included |
| HexBus.HexBus.TakeIdle | hexbus/sw/hexbus.cpp:548-611 | one character of readidle |
| HexBus.HexBus.ReadIdle | hexbus/sw/hexbus.cpp:537-613 | readidle does what the specified call does to registers and input, and the history shows the call and the characters it read |
| HexBus.HexBus.Poll | hexbus/sw/hexbus.cpp:219-228 | one call of readidle leaves host and input as the polls made so far do, writes nothing, and keeps the pace |
| HexBus.HexBus.AwaitAcks | hexbus/sw/hexbus.cpp:219-228 | polls until the acknowledgements wanted have come in, or no polls are left; nothing is written, and host and input are as exactly those polls leave them |
| HexBus.HexBus.SendWord | hexbus/sw/hexbus.cpp:203-217 | with at most one word unacknowledged the next one is written, whole, and the pace is kept |
| HexBus.HexBus.SendAll | hexbus/sw/hexbus.cpp:203-222 | the words go out once each and in order, the address before the first, each as soon as all but one of those before it are acknowledged in what was read by then |
| HexBus.HexBus.WriteV | hexbus/sw/hexbus.cpp:193-233 | over the history of the link, at no time are more than two writes sent and not acknowledged, and the host asks for more only while two are or all are sent; each word is written once and in order; the call throws if and only if an error word ends, with the cached address; it completes when all are acknowledged, and does so whenever the polls can find enough acknowledgements and no error; host and input are as the polls made leave them |
| WriteEffect.StoredInOrder | hexbus/rtl/hbexec.v:199-244 | an advancing write stores each word at its own address and changes nothing else |
| WriteEffect.MachineWrites | hexbus/rtl/hbexec.v:125-325 | write commands are each acknowledged once and leave the memory with the words stored and the address past them |
| WriteEffect.WritesReachMemory | hexbus/sw/hexbus.cpp:193-233 | the text writev sends, parsed and executed, stores its words from the address on, whether or not the address was sent, and is answered by the echo of an address sent and one acknowledgement a word |
| EndToEnd.Itemised | hexbus/rtl/hbbus.v:160-190 | text whose breaks stand between words is whole words and line ends and the beginning of one more |
| EndToEnd.DeliveredItems | hexbus/rtl/hbbus.v:132-190 | for every run of the chain the text delivered is whole words and line ends and part of one more, its bus responses the first of those accepted |
| EndToEnd.WakesToSession | hexbus/sw/hexbus.cpp:440-528 | a fresh host, whatever its space flag, reads the stream as one that has begun its first item |
| EndToEnd.ReadsThroughChain | hexbus/sw/hexbus.cpp:353-405 | if the chain took the device's answers to a fresh host's reads, after the word its reset left, and all of it was delivered, the host's buffers hold the memory's words and it printed exactly the commands executed |
| EndToEnd.SettledExecutes | hexbus/rtl/hbbus.v:90-145 | a port at rest with nothing dropped has executed exactly the commands in the text received, and its chain took exactly the answers |
| EndToEnd.ReadsThroughPort | hexbus/rtl/hbbus.v:90-190 | the whole port from power-up, with a memory for a slave and any stalls: if it received what a fresh host prints for its reads, has settled with nothing dropped and delivered its answers, the host got the memory's words and printed just that text |

## Left out

- HbInts.InterruptConservation: conservation only; on an idle link a pending interrupt word waits for the next response, and `PresentedNext` gives the exact condition.
- HbIdle.Idle.Step: the idle period is a parameter; the hardware's 2^30 and the simulation's 2^23 clocks are two of its values.
- HbExec.Refinement: the address width is fixed at 30 bits, and a reset is taken to abort the slave's transaction too.
- HbExecAxi.Refinement: the low-power option is off, the two low address bits are dropped, and a reset is taken to reset the slave.
- TestBus.NoCommandDropped: only the timing of the slaves' answers is modelled; the data they return, the sample registers and the power counter are not.
- WbScope.TriggerPlacement: with gaps in i_ce the trigger is misplaced when the stopping clock has no sample, since the stop is not gated by i_ce; the exact condition is proved.
- WbScope.ReadBack: a read on the heels of a control write that cleared a nonzero read address is answered for the old address; `LookAhead` gives the exact condition, `StaleRead` the answer, and `ReadsStale` a run.
- ScopeHost.HostMarksTrigger: uncompressed traces; the trace text itself is not part of this model.
- UartSim.Simulator.RawTick: eight data bits, no parity, one stop bit and an open connection; the change counter is unbounded where the source's is an int.
- UartSim.Simulator.ReceiveTick: the same setting, and a write to the connection never fails.
- UartSim.Simulator.TransmitTick: the same setting, and a read of the connection never fails.
- HexHost.SessionReadsMemory: word-aligned addresses, and reads without a bus error between them; no claim is made that the cached address is the device's after a write or after an error.
- HexHost.ReadVReadsMemory: the device's memory is the bus machine's; memory that changes by itself is not modelled.
- HexBus.HexBus.ReadWord: a read that would block for ever returns when the input ends; the input is a character sequence fixed in advance.
- HexBus.HexBus.AwaitAcks: the source polls for ever; here the number of polls, and how much each finds, is a parameter, and every such choice is covered.
- EndToEnd.ReadsThroughChain: with three idle notes inside one read the source gives up, as `ReadErrors.GivesUp` says; runs where that happens are excluded.
- EndToEnd.ReadsThroughPort: host and port are not run against each other clock by clock; that nothing is dropped is asked for, and `PortLimits.PacedLosesNothing` gives a pace that ensures it of the answers.
- The asynchronous branch of wbscope, the one-bit holdoff case, and metastability registers.
- memdev's byte selects and its memory array; the bus machine's memory stands for it.
- hexbus/rtl/console.v, whose FIFO is not part of this model, and the console input of hbconsole.
- Sockets, terminals, poll, signals, register names, trace files, and the character filter of lclreadcode, which changes nothing the link sends.
