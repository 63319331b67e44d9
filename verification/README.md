# Verification model of the CAmkES debug and network components

The repository attaches GDB to a component of a CAmkES system on seL4, over a serial line or over TCP. This project
models the parts that carry state and proves what they keep over whole runs.

* `ethdriver.c` owns 256 receive buffers and, for each client, a stack of transmit buffers. Receive buffers move
  between a free stack, the hardware and the clients' rings; frames are routed by MAC address, copied on broadcast, or
  dropped. `EthModel` states each operation as a step on values; `EthInvariant`, `EthFrames` and `Wakeup` prove
  conservation, frame integrity and the absence of lost wakeups over every interleaving of those steps (the driver's
  lock makes each operation one step), and `EthReceive` says where each buffer goes and which client is told.
  `EthDriver` has the driver's arrays, rings and loops, each method proved to perform its step. `Router` has the lwIP side, `raw_poll` and `raw_tx`, on top of the driver.
* `gdb.c` patches the debugged program. `BreakpointTable` is its 50-slot table, `HexText` its hex conversions,
  `StubModel` its commands and stops on values, `StubRoundTrips` what commands undo of each other, `StubAnswers` the
  effect of each packet from its text, `Overlay` the invariant that memory is the unpatched program under a known
  overlay, over whole sessions. `Stub` has the arrays and parsing loops of `handle_breakpoint`, up to a whole call over the serial line.
* `serial_gdb.c` and `eth_gdb.c` frame packets. `SerialFraming` relates three views of the receiver: which frame of a
  stream is accepted (`Decodes`), a character automaton (`Feed`), and the nested loops. `EthernetFraming` has the
  whole-message variant.
* `seL4TCP-to.template.c` queues messages on linked nodes (`TcpQueue`); `seL4UART.template.c` is a character ring
  (`UartFifo`).

Bytes are `0..255`, machine words `0..2^32-1`; wrap-around is written out. Addresses of the debugged program are
indices of a byte array of 2^32 bytes. Parameters stand for what these files do not contain: the DMA allocator's results,
lwIP's readiness to grant buffers, `sizeof(Buf)`, and whether the kernel accepts a register write.

## Where the code does less than it seems to promise

Each of these is proved as the code behaves, with the condition under which it does what it should.

* The UART ring masks with 255 but wraps modulo 255, although its comment asks for one constant to serve both. It is a
  FIFO in a run exactly when no character arrives with 254 pending (`FifoExactly`); otherwise that character is lost,
  or, with `head` at the last slot, all of them (`OverrunLoses`). From the empty ring 255 characters do that
  (`OverrunReached`).
* A payload of fewer than two characters leaves an older `buffer[2]` to decide whether a sequence number is present, so
  the string returned is the text sent exactly when no ':' decides otherwise, or a stale one does and the string behind
  it happens to be the text (`RoundTrip`, `EthernetRoundTrip`). A packet such as "ab:" spoils the next one of one
  character (`StaleColon`).
* Address 0 marks free slots, so `find_bp` and `del_bp` find it whenever the table is not full; a stop at 0 then
  overwrites the word there (`FindAtZero`, `AddressZero`).
* The value 0xFFFFFFFF marks an address not found, so a breakpoint on a word with that value is not taken out at a hit
  (`HitRestores`).
* A breakpoint requested at the current PC is answered OK without being set; the comment there takes it to be set
  already (`InsertArms`). Likewise a table entry may be unarmed after a hit; setting it again arms it.
* A word `M` writes over a breakpoint survives the breakpoint's removal only if it equals the saved word
  (`WriteOverBreakpointLost`).
* `M` answers E03, though it has stored its bytes, when the 32-bit address after the last one is 0 (`WriteAnswer`).
* `num_tx` starts at 127, so a client's last transmit buffer is never used (`Bounds`, `Driver.PostInit`).
* When lwIP grants no buffer, `raw_poll` drops the frame it has fetched. If others are behind it and no notification is
  pending, that router is stuck: whatever happens afterwards, it is never notified and never handed a frame again
  (`PollTold`, `RefusalSticks`, `StuckForever`). In every interleaving, all routers are kept told exactly when no poll
  does that (`RunTold`); from every start some run does (`SomeRunSticks`).
* `client_tx` reports success when the client has no idle transmit buffer and the frame is dropped, and when a packet of
  more than 2048 bytes is cut to 2048 (`AfterTx`, `RawTx`, `CutWhenLong`).

## Model

| member | source | states |
|---|---|---|
| EthInvariant.StepHeld | components/Ethdriver/src/ethdriver.c:359-631 | no step creates, loses, duplicates or re-pairs a receive buffer: stack, hardware and rings together hold the same multiset of (vbuf, pbuf) pairs before and after, on every path including broadcast and error |
| EthInvariant.StepInv | components/Ethdriver/src/ethdriver.c:340-704 | every step of driver, hardware and clients keeps: each receive buffer in one place, buffers at different addresses, rings within 127, transmit buffers idle or in flight but not both, frames in flight intact |
| EthInvariant.InitialInv | components/Ethdriver/src/ethdriver.c:805-852 | the state after `post_init` has all receive buffers on the stack and satisfies the invariant |
| EthInvariant.RunInv | components/Ethdriver/src/ethdriver.c:340-704 | in every reachable state the receive buffers are exactly the initial 256 pairs, and each client's transmit buffers are its own 127 |
| EthInvariant.Bounds | components/Ethdriver/src/ethdriver.c:340-351 | stack, hardware and rings add up to 256 buffers and a client's idle and in-flight transmit buffers to 127, so no stack or ring write is out of range |
| EthInvariant.IdleTx | components/Ethdriver/src/ethdriver.c:669-701 | idle transmit buffers of a client are pairwise different, its own, and not in flight |
| EthInvariant.TxDoneTransmit | components/Ethdriver/src/ethdriver.c:340-351 | a completed buffer goes back to the client that sent it, which then again has each of its buffers once |
| EthInvariant.RxOnlyTransmit | components/Ethdriver/src/ethdriver.c:483-631 | nothing on the receive side, not even the zeroing of returned buffers, disturbs a frame being sent |
| EthInvariant.CopyFromHeld | components/Ethdriver/src/ethdriver.c:499-513 | the broadcast loop conserves receive buffers however many clients have room and however many buffers are left |
| EthFrames.StepFrames | components/Ethdriver/src/ethdriver.c:359-631 | frame integrity of one step: frames waiting for a client plus those accepted equal those delivered plus those waiting after, byte for byte and in order |
| EthFrames.RunFrames | components/Ethdriver/src/ethdriver.c:359-631 | in every run each client is handed exactly the frames accepted for it, unchanged and in order, the rest waiting in its ring, despite hardware writes, broadcast copies, zeroing and other clients |
| EthFrames.ReceiveFrames | components/Ethdriver/src/ethdriver.c:483-533 | exactly the clients that take a completed frame get it: the one it is addressed to, or on a broadcast client 0 and the others with room in index order while buffers last; a full client takes nothing |
| EthFrames.CopyFromFrames | components/Ethdriver/src/ethdriver.c:499-513 | the broadcast loop appends one copy to each client with room, in index order, until buffers run out, and leaves the original frame intact |
| EthFrames.BroadcastReach | components/Ethdriver/src/ethdriver.c:497-532 | with enough free buffers every client with room gets an identical copy; one buffer off the top of the stack is used for each of clients 1 on, or all of them if there are too few; the frame's own buffer goes back on the stack exactly when client 0 is full |
| EthFrames.RingsApart | components/Ethdriver/src/ethdriver.c:457-473 | no two places in the rings share a buffer, so broadcast copies are independent |
| EthFrames.ClientRxFrames | components/Ethdriver/src/ethdriver.c:567-631 | `client_rx` hands out the caller's oldest frame and leaves every waiting frame of every client as it was, though it clears the returned buffer |
| EthFrames.WireKept | components/Ethdriver/src/ethdriver.c:643-704 | a frame handed to the hardware stays in its buffer as composed until that buffer is completed |
| EthFrames.RunWire | components/Ethdriver/src/ethdriver.c:340-704 | in every reachable state, and so at its completion, a buffer in flight holds the very bytes `client_tx` last composed in it, and a buffer is in flight exactly when one was composed and not completed since |
| EthFrames.SentFrame | components/Ethdriver/src/ethdriver.c:643-704 | `client_tx` with an idle buffer puts the composed frame on the wire in one of the caller's own buffers, not in flight before |
| EthReceive.AllocStack | components/Ethdriver/src/ethdriver.c:359-396 | a request that is not too large moves the top buffer of the stack to the hardware; on an empty stack or a larger request nothing changes |
| EthReceive.ReceiveStack | components/Ethdriver/src/ethdriver.c:483-533 | completed buffers always leave the hardware; two or more, or none, go back on the stack in order; a single one goes back on top of what the copies left exactly when its receiver does not take the frame: a frame for nobody, or a full ring |
| EthReceive.ReceiveTells | components/Ethdriver/src/ethdriver.c:457-473 | exactly the clients that take the frame have one more waiting, and each is notified exactly if it had asked, its request then being cleared |
| EthReceive.RoomForFrame | components/Ethdriver/src/ethdriver.c:519-522 | a frame addressed to a client is appended to its ring exactly while fewer than 127 wait there |
| EthReceive.ClientRxStack | components/Ethdriver/src/ethdriver.c:606-626 | the buffer of the frame handed out goes on top of the stack, all zero, and no other buffer is written; without a frame nothing moves |
| EthReceive.UnknownClient | components/Ethdriver/src/ethdriver.c:583-588 | receiving or sending for an id of no client fails and changes nothing |
| EthDriver.InitialSysInitial | components/Ethdriver/src/ethdriver.c:805-852 | non-NULL, pairwise different allocations make the set-up state an initial state of the step machine |
| EthDriver.SomeInitialSys | components/Ethdriver/src/ethdriver.c:805-852 | for any clients an allocation exists that meets these conditions, so the statements about runs are not empty |
| EthDriver.Driver.PostInit | components/Ethdriver/src/ethdriver.c:805-852 | the loops fill the stack in order and give each client 127 of its 128 transmit buffers |
| EthDriver.SetUpClients | components/Ethdriver/src/ethdriver.c:824-852 | each client gets its own record, empty ring, `should_notify` set and its transmit stack |
| EthDriver.Driver.AllocateRxBuf | components/Ethdriver/src/ethdriver.c:359-396 | pops the top buffer with its pairing, or refuses an empty stack or an oversized request and changes nothing |
| EthDriver.Driver.ReturnRxBuf | components/Ethdriver/src/ethdriver.c:525-532 | pushes a buffer back with its pairing; there is always room |
| EthDriver.Driver.DetectClient | components/Ethdriver/src/ethdriver.c:403-420 | the first client whose address equals the frame's first six bytes, no earlier one matching, or none |
| EthDriver.Driver.IsBroadcastFrame | components/Ethdriver/src/ethdriver.c:426-448 | true exactly for six leading 0xFF bytes |
| EthDriver.FillSlot | components/Ethdriver/src/ethdriver.c:465-467 | writing at `head` and advancing it modulo 128 appends to the ring's contents, also across the end |
| EthDriver.FreeSlot | components/Ethdriver/src/ethdriver.c:606-607 | advancing `tail` modulo 128 removes the oldest entry |
| EthDriver.SlotsLength | components/Ethdriver/src/ethdriver.c:504-519 | the ring is full, empty or holds one frame exactly as the driver's index tests say |
| EthDriver.Client.Give | components/Ethdriver/src/ethdriver.c:457-473 | appends to the ring and notifies once if the client asked for it, clearing the request |
| EthDriver.Client.Take | components/Ethdriver/src/ethdriver.c:606-619 | removes the oldest frame and asks for notification exactly when the ring became empty |
| EthDriver.Driver.RxComplete | components/Ethdriver/src/ethdriver.c:483-533 | the whole completion handler performs the receive step, so the results on stack, rings and notifications hold of the code: detection, broadcast loop, delivery or return of the buffers |
| EthDriver.Driver.Broadcast | components/Ethdriver/src/ethdriver.c:499-513 | the loop over clients 1 on performs the broadcast copies in order |
| EthDriver.Driver.CopyToClient | components/Ethdriver/src/ethdriver.c:503-512 | one round: a client with room gets a copy in a newly allocated buffer, else nothing happens |
| EthDriver.Driver.DeliverTo | components/Ethdriver/src/ethdriver.c:519-532 | gives the buffer to the client, or puts it back when the ring is full |
| EthDriver.Driver.ReturnAll | components/Ethdriver/src/ethdriver.c:525-532 | puts every buffer of a failed completion back in order |
| EthDriver.Driver.GetClient | components/Ethdriver/src/ethdriver.c:547-555 | the first client with the given id, no earlier one having it, or none |
| EthDriver.Driver.ClientRx | components/Ethdriver/src/ethdriver.c:567-631 | performs the receive call: status, length and bytes in the caller's dataport are those of its oldest frame; on an empty ring it fails and asks for notification |
| EthDriver.Driver.Serve | components/Ethdriver/src/ethdriver.c:606-626 | copies the frame out before its buffer goes back on the stack and is cleared |
| EthDriver.Driver.ClientTx | components/Ethdriver/src/ethdriver.c:643-704 | performs the send call: length clamped, own address inserted, buffer moved to the hardware; without an idle buffer nothing changes but the answer is still success |
| EthDriver.Driver.Send | components/Ethdriver/src/ethdriver.c:671-694 | pops the top idle buffer and composes the frame in it, bytes 6 to 11 replaced by the client's address |
| EthDriver.Driver.TxComplete | components/Ethdriver/src/ethdriver.c:340-351 | pushes the buffer on the stack of the client recorded in it; there is always room |
| Wakeup.NoLostWakeup | components/DebugRouter/src/router.c:264-273 | in every interleaving in which lwIP refuses no frame with others behind it and no notification pending, a router waiting with no notification pending has an empty ring, is set to be notified, and has been handed every frame accepted for it |
| Wakeup.PollTold | components/DebugRouter/src/router.c:77-112 | a poll keeps the wakeup invariant exactly when lwIP grants a buffer, or no further frame is left, or a notification is pending |
| Wakeup.ReceiveTold | components/Ethdriver/src/ethdriver.c:457-473 | a frame arriving at any moment leaves every router told or already polling |
| Wakeup.WakeTold | components/DebugRouter/src/router.c:264-273 | taking the notification and starting to poll keeps the invariant |
| Wakeup.RunTold | components/DebugRouter/src/router.c:77-112 | in every interleaving, every router is told at every moment exactly when each poll is granted, or leaves nothing behind, or has a notification pending |
| Wakeup.RefusalSticks | components/DebugRouter/src/router.c:87-110 | a poll that is refused otherwise leaves its router waiting, neither notified nor set to be notified, with frames in its ring |
| Wakeup.StuckForever | components/DebugRouter/src/router.c:264-273 | such a router stays so whatever happens, and is never handed a frame again |
| Wakeup.SomeRunSticks | components/DebugRouter/src/router.c:77-112 | from every start there is a run that gets there: two frames arrive and the first is refused |
| Wakeup.RunProjects | components/DebugRouter/src/router.c:77-112 | a run of routers and driver, with or without refusals, is a run of the driver, so its frame and buffer results apply |
| Router.AfterRx | components/Ethdriver/src/ethdriver.c:567-631 | what a receive call answers, in terms of the frames waiting; after the last one the ring is empty and notification requested |
| Router.AfterTx | components/Ethdriver/src/ethdriver.c:643-704 | a packet of 12 bytes or more with an idle buffer goes on the wire with the sender's address at bytes 6 to 11, cut to 2048 bytes; a shorter one, or one without an idle buffer, changes nothing; the status tells only the short one apart |
| Router.CutWhenLong | components/Ethdriver/src/ethdriver.c:651-651 | the frame carries the whole packet exactly when it is at most 2048 bytes |
| Router.LwipInterface.EthdriverRx | components/DebugRouter/src/router.c:80-98 | the shared buffer holds exactly the oldest waiting frame, and the status tells whether more follow |
| Router.LwipInterface.RawPoll | components/DebugRouter/src/router.c:77-112 | passes up all waiting frames in order and leaves the driver set to notify; if lwIP runs out of buffers, just the first ones, and the next frame is lost |
| Router.LwipInterface.Gather | components/DebugRouter/src/router.c:148-153 | the fragments are laid out one after the other |
| Router.LwipInterface.RawTx | components/DebugRouter/src/router.c:121-156 | the frame on the wire is the fragments' concatenation, cut to 2048 bytes, with bytes 6 to 11 replaced by the client's address; a total above the shared buffer never reaches the driver; the status is success for 12 bytes or more, sent whole, cut or dropped |
| BreakpointTable.SetBp | templates/gdb_templates/gdb.c:206-227 | the scan keeps an existing entry, else uses the last free slot, else fails |
| BreakpointTable.FindBp | templates/gdb_templates/gdb.c:190-203 | the opcode of the first slot with that address, or 0xFFFFFFFF |
| BreakpointTable.DelBp | templates/gdb_templates/gdb.c:169-186 | clears the first slot with that address and yields its opcode, or fails |
| BreakpointTable.SetIsInsert | templates/gdb_templates/gdb.c:206-227 | the table is a map of bounded capacity: insertion keeps the original opcode of a held address and fails exactly when the address is new and every slot is used |
| BreakpointTable.DeleteIsRemove | templates/gdb_templates/gdb.c:169-186 | deletion removes just that address and fails exactly when it is absent |
| BreakpointTable.FindIsLookup | templates/gdb_templates/gdb.c:190-203 | for a nonzero address the search is the map's lookup |
| BreakpointTable.FindAtZero | templates/gdb_templates/gdb.c:190-203 | address 0 is found, with opcode 0, exactly when the table is not full |
| BreakpointTable.EntriesSize | templates/gdb_templates/gdb.c:206-227 | the map has as many entries as the table has slots exactly when no slot is free |
| BreakpointTable.EmptyTable | templates/gdb_templates/gdb.c:65-65 | the zeroed table is the empty map |
| Overlay.StepSound | templates/gdb_templates/gdb.c:359-672 | every command, stop and store of the program keeps the overlay: memory is the unpatched program except for table words, which hold TRAP or their saved word, and the word of a pending step |
| Overlay.RunSound | templates/gdb_templates/gdb.c:316-675 | the overlay holds over every session from a sound state |
| Overlay.FreshSound | templates/gdb_templates/gdb.c:60-65 | before the first stop the overlay is empty |
| Overlay.HaltedDifference | templates/gdb_templates/gdb.c:359-672 | at every command-loop state a word differs from the unpatched program only if it is in the table and holds TRAP, and each saved opcode is the unpatched word |
| Overlay.RunningDifference | templates/gdb_templates/gdb.c:612-636 | between a step and the next stop only the step word may differ besides |
| Overlay.CleanAfterRemoval | templates/gdb_templates/gdb.c:359-672 | a stop with an empty table leaves exactly the initial program plus the writes of M and of the program |
| Overlay.DifferenceIsTrap | templates/gdb_templates/gdb.c:547-566 | a differing word is a breakpoint, armed, with the original saved |
| Overlay.StepThenStop | templates/gdb_templates/gdb.c:612-636 | a single step changes nothing but the register values and its own variables once the program stops, wherever it stops |
| Overlay.HitRestores | templates/gdb_templates/gdb.c:383-389 | a stop at a breakpoint takes its trap out, touches no other word and keeps the entry, except for a saved word 0xFFFFFFFF |
| Overlay.StopElsewhere | templates/gdb_templates/gdb.c:383-389 | a stop at a nonzero address that is no breakpoint changes neither memory nor table |
| Overlay.AddressZero | templates/gdb_templates/gdb.c:383-389 | a stop at address 0, or its removal, stores 0 there exactly when the table is not full |
| Overlay.InsertArms | templates/gdb_templates/gdb.c:547-570 | 'Z' away from the current PC is refused exactly when the address is new and the table full, else the table gains just that address with its unpatched word, the word is armed and nothing else in memory changes; at the current PC it changes nothing |
| Overlay.RemoveDisarms | templates/gdb_templates/gdb.c:523-539 | 'z' of a held address answers OK, takes just that entry out, puts the unpatched word back and touches no other word; 'z' of any other nonzero address answers E03 and changes nothing |
| Overlay.WriteOverBreakpointLost | templates/gdb_templates/gdb.c:592-609 | a word M writes over a breakpoint survives its removal exactly when it equals the saved word |
| StubRoundTrips.WriteThenRead | templates/gdb_templates/gdb.c:573-609 | M then m over the same range of at most 1023 bytes answers the digits written, in lower case |
| StubRoundTrips.SetThenGet | templates/gdb_templates/gdb.c:418-467 | P then p on a register other than PC answers the eight digits written, in lower case |
| StubRoundTrips.SwapMatchesMemory | templates/gdb_templates/gdb.c:449-451 | the byte swap of a parsed register value gives the bytes `hex2mem` would store from the same digits |
| StubRoundTrips.SetAgreesWithAll | templates/gdb_templates/gdb.c:441-521 | G and P leave a register with the same word for the same eight digits |
| StubRoundTrips.AllThenAll | templates/gdb_templates/gdb.c:510-521 | G then g answers the digits written, in lower case |
| StubRoundTrips.AllShowsEach | templates/gdb_templates/gdb.c:418-513 | the eight digits g shows for a register are those p answers |
| StubModel.OthersInRange | templates/gdb_templates/gdb.c:408-668 | whatever the packet, only a command that touches memory can be outside the address space |
| StubModel.WriteAnswer | templates/gdb_templates/gdb.c:595-604 | M stores its bytes in any case and answers E03 exactly when the 32-bit address after the last one is 0 |
| StubAnswers.HaltAnswer | templates/gdb_templates/gdb.c:410-415 | '?' answers S05 |
| StubAnswers.GetAnswer | templates/gdb_templates/gdb.c:418-438 | from the text of 'p': the digits of registers 0 to 15 by number, of the status register as number 25, eight 'x' for any other number |
| StubAnswers.SetAnswer | templates/gdb_templates/gdb.c:441-467 | from the text of 'P': the register named, and no other, reads back as the digits given; the PC and higher numbers are refused with E01 and nothing changes |
| StubAnswers.AllAnswer | templates/gdb_templates/gdb.c:510-513 | from the text of 'g': 128 digits, those of each of the sixteen registers in its place |
| StubAnswers.SetAllAnswer | templates/gdb_templates/gdb.c:516-520 | from the text of 'G': each of the sixteen registers reads back as its eight digits, the status register is kept, the answer is OK |
| StubAnswers.ContinueAnswer | templates/gdb_templates/gdb.c:639-651 | 'c' with digits resumes at their value modulo 2^32; without, at PC + 4 modulo 2^32 if stopped at the stub's own trap, else at PC; memory, table and all other registers are unchanged |
| StubAnswers.StepAnswer | templates/gdb_templates/gdb.c:612-636 | 's' saves the word at PC + 4 modulo 2^32 and puts the trap there, changing no other word and not the table; it resumes at PC, or at PC + 4 if stopped at the stub's own trap |
| StubAnswers.KillAnswer | templates/gdb_templates/gdb.c:658-660 | 'k' resumes at 0 and changes nothing |
| StubAnswers.BreakpointParsed | templates/gdb_templates/gdb.c:523-570 | the texts "Z0,addr,4" and "z0,addr,4" insert and remove a breakpoint at the value of the digits |
| StubAnswers.ReadAnswer | templates/gdb_templates/gdb.c:573-582 | the text "maddr,length" answers the digits of that range and changes nothing |
| StubAnswers.StoreAnswer | templates/gdb_templates/gdb.c:592-609 | the text "Maddr,length:data" makes the range read back as the digits given and changes no other byte; it answers OK, or E03 exactly when the 32-bit address behind the range is 0 |
| StubAnswers.Refused | templates/gdb_templates/gdb.c:418-609 | missing numbers or separators are answered with E01, E02 for 'M', and nothing for 'P', and change nothing |
| StubAnswers.QueryAnswer | templates/gdb_templates/gdb.c:486-508 | the packets with an answer, told apart by their start, and E01 exactly for the others |
| StubAnswers.ThreadAnswer | templates/gdb_templates/gdb.c:474-484 | 'H' is answered OK for the four thread choices and E01 for any other |
| StubAnswers.StopShows | templates/gdb_templates/gdb.c:390-398 | the packet of a stop at a trap reads T05, then register 0f with the digits of the PC and register 0d with those of the SP |
| StubAnswers.StopTakesRegisters | templates/gdb_templates/gdb.c:356-400 | a stop takes over the registers, keeps the table and ends a step; a stop after a step answers S05, any other the T05 packet |
| Stub.DebugStub.constructor | templates/gdb_templates/gdb.c:57-65 | the stub starts with an empty table and no step pending |
| Stub.DebugStub.HandleBreakpoint | templates/gdb_templates/gdb.c:316-675 | a whole call over the serial line, from a stop to the resumption: the stop's effect and packet, then every command of the host in order; the resume address, final state and everything sent are those of the specified visit; with debugging switched off it only takes the registers and returns PC + 4 modulo 2^32 |
| Stub.DebugStub.CommandLoop | templates/gdb_templates/gdb.c:403-672 | the loop answers the host's packets one by one and ends with the first command that resumes the program, or skips the instruction once debugging is switched off |
| Stub.VisitIsRun | templates/gdb_templates/gdb.c:403-672 | a visit to the loop is a run of the session machine, so the overlay results hold of the loop itself |
| Stub.CallIsRun | templates/gdb_templates/gdb.c:316-675 | so is a whole call, with the stop that causes it |
| Stub.VisitResumes | templates/gdb_templates/gdb.c:403-674 | a visit ends at its first 's', 'c' or 'k', or when debugging is switched off; the address returned is the final PC after 's' and 'c', 0 after 'k', and PC + 4 modulo 2^32 otherwise |
| Stub.DebugStub.Turn | templates/gdb_templates/gdb.c:403-672 | one turn of the command loop over the serial line: the accepted packet's command takes its effect on memory, table and registers, and the host receives the acknowledgements followed by the framed answer, or the program resumes |
| Stub.DebugStub.Dispatch | templates/gdb_templates/gdb.c:408-668 | every letter's branch has the effect, answer or resume address of its command |
| Stub.DebugStub.TakeStop | templates/gdb_templates/gdb.c:356-400 | a stop restores the trapped word and composes the S05 packet after a step, else the T05 packet with PC and SP |
| Stub.DebugStub.SayStopped | templates/gdb_templates/gdb.c:390-400 | the packet of a stop at a trap, character by character |
| Stub.DebugStub.PutRegValue | templates/gdb_templates/gdb.c:304-313 | appends register number, ':' and contents |
| Stub.DebugStub.ReadRegister | templates/gdb_templates/gdb.c:418-438 | 'p': register, CPSR as number 25, 'x's for other numbers, E01 without a number |
| Stub.DebugStub.WriteRegister | templates/gdb_templates/gdb.c:441-467 | 'P': byte-swapped value stored unless the register is PC or out of range; an empty answer without '=' |
| Stub.DebugStub.ReadAllRegisters | templates/gdb_templates/gdb.c:510-513 | 'g': the sixteen registers in order |
| Stub.DebugStub.WriteAllRegisters | templates/gdb_templates/gdb.c:516-520 | 'G': the decoded bytes over the register block |
| Stub.DebugStub.RemoveBreakpoint | templates/gdb_templates/gdb.c:523-539 | 'z': saved word restored and slot cleared, E03 when absent, E01 when malformed |
| Stub.DebugStub.InsertBreakpoint | templates/gdb_templates/gdb.c:547-570 | 'Z': word saved and replaced by TRAP, E03 when full, E01 when malformed, OK without effect at the current PC |
| Stub.DebugStub.ReadMemory | templates/gdb_templates/gdb.c:573-589 | 'm': the hex digits of the range, E01 when malformed |
| Stub.DebugStub.WriteMemory | templates/gdb_templates/gdb.c:592-609 | 'M': the decoded bytes over the range; E03 when the address after the last byte is 0, E02 when malformed |
| Stub.DebugStub.Step | templates/gdb_templates/gdb.c:612-636 | 's': the next word saved and replaced by TRAP, PC moved past the stub's own trap |
| Stub.DebugStub.ContinueAt | templates/gdb_templates/gdb.c:639-651 | 'c': performs the command as specified, so the resume address and registers are those of `ContinueAnswer` |
| HexText.HexCharInverse | templates/gdb_templates/gdb.c:230-240 | `hex` inverts `hexchars`, and `hexchars` gives a digit back in lower case |
| HexText.DigitTable | templates/gdb_templates/gdb.c:56-56 | nibbles are printed as "0123456789abcdef" and exactly those characters, in either case, are read as digits, with their place as value |
| HexText.HexToInt | templates/gdb_templates/gdb.c:281-301 | consumes exactly the longest run of hex digits, returns its length, yields its value modulo 2^32 |
| HexText.DigitsEndIsLongest | templates/gdb_templates/gdb.c:288-298 | the run consumed holds digits only and is followed by a non-digit |
| HexText.PrintedValue | templates/gdb_templates/gdb.c:281-301 | any hex printing of a number, in either case and with any leading zeros, has that value |
| HexText.NumberInContext | templates/gdb_templates/gdb.c:281-301 | a digit string followed by a non-digit is read as its value, whatever surrounds it |
| HexText.Mem2Hex | templates/gdb_templates/gdb.c:243-260 | writes two lower-case digits for each byte and a NUL, touching nothing else |
| HexText.Hex2Mem | templates/gdb_templates/gdb.c:263-278 | stores a byte for each pair until the count or a NUL, touching nothing else |
| HexText.DecodedOfHex | templates/gdb_templates/gdb.c:243-278 | `hex2mem` inverts `mem2hex` |
| HexText.HexOfDecoded | templates/gdb_templates/gdb.c:243-278 | `mem2hex` inverts `hex2mem` up to lower case |
| HexText.DecodedPairs | templates/gdb_templates/gdb.c:263-278 | byte k comes from pair k, no pair starts with a NUL, and fewer bytes than asked for come out only before a NUL |
| SerialFraming.ChecksumIsModularSum | templates/gdb_templates/serial_gdb.c:64-64 | the wrapping sum is the sum of the characters modulo 256 |
| SerialFraming.DecodesIsAccepted | templates/gdb_templates/serial_gdb.c:39-98 | on a stream that holds an acceptable frame the receiver accepts the first one, at its end and not before, after refusing each earlier complete one |
| SerialFraming.AcceptedDecodes | templates/gdb_templates/serial_gdb.c:39-98 | whatever the receiver accepts is the first acceptable frame of the stream |
| SerialFraming.RunAttempt | templates/gdb_templates/serial_gdb.c:48-84 | one frame: payload after the last '$', at most 2046 characters, accepted exactly when the sum matches the two digits |
| SerialFraming.BufferHolds | templates/gdb_templates/serial_gdb.c:54-68 | the buffer always holds the payload so far and is terminated once complete |
| SerialFraming.FrameDecodes | templates/gdb_templates/serial_gdb.c:104-128 | what the printer emits, behind noise without '$', is the frame accepted |
| SerialFraming.FrameText | templates/gdb_templates/serial_gdb.c:111-126 | a frame is '$', the text, '#' and the sum of the characters modulo 256 as two lower-case digits, high one first |
| SerialFraming.ChecksumByte | templates/gdb_templates/serial_gdb.c:73-76 | two digits are read as 16 times the first plus the second |
| SerialFraming.SequenceEchoed | templates/gdb_templates/serial_gdb.c:87-92 | the first two characters are sent back, in order, exactly when the third is ':' |
| SerialFraming.RepeatAllRepeated | templates/gdb_templates/serial_gdb.c:111-128 | n repetitions are n copies end to end: the k-th one starts k lengths behind the output before, and nothing follows the last |
| SerialFraming.FrameStored | templates/gdb_templates/serial_gdb.c:53-68 | it leaves the payload and a NUL in the buffer and the rest as it was |
| SerialFraming.RoundTrip | templates/gdb_templates/serial_gdb.c:31-128 | the parser accepts the printed text, consuming just that frame, and returns exactly that text unless the deciding character, stale for texts under two characters, is ':'; then only if the string behind a stale one is the text |
| SerialFraming.StaleColon | templates/gdb_templates/serial_gdb.c:86-93 | after three characters ending in ':', the next packet of one character is returned as the empty string |
| SerialFraming.SerialLink.GetPacket | templates/gdb_templates/serial_gdb.c:31-101 | terminates on the first acceptable frame with one '-' for each refused one, then '+', then the two characters of a sequence number if there is one; buffer and start index as specified |
| SerialFraming.SerialLink.AwaitDollar | templates/gdb_templates/serial_gdb.c:41-46 | skips up to and including a '$' |
| SerialFraming.SerialLink.ReadPayload | templates/gdb_templates/serial_gdb.c:48-68 | collects up to '#', afresh at every '$', and gives up after 2047 characters |
| SerialFraming.SerialLink.CheckPacket | templates/gdb_templates/serial_gdb.c:70-95 | compares the checksums and answers '+' or '-' |
| SerialFraming.SerialLink.EmitFrame | templates/gdb_templates/serial_gdb.c:113-126 | one pass emits '$', the text, '#' and two checksum digits |
| SerialFraming.SerialLink.PutPacket | templates/gdb_templates/serial_gdb.c:104-131 | the output grows by exactly one copy of the frame, end to end, for each character read up to the first '+': every refused frame is sent again |
| EthernetFraming.EthernetLink.GetPacket | templates/gdb_templates/eth_gdb.c:144-230 | skips messages without '$', then decodes a well-formed frame: payload, acknowledgement, sequence answer, start index; the string returned is the framed text exactly under the condition of the serial round trip |
| EthernetFraming.EthernetLink.Decode | templates/gdb_templates/eth_gdb.c:170-226 | the loops over the message extract payload and checksum |
| EthernetFraming.EthernetLink.Collect | templates/gdb_templates/eth_gdb.c:178-195 | the loop stores and sums the characters up to '#' |
| EthernetFraming.EthernetLink.EnetGetPacket | templates/gdb_templates/eth_gdb.c:91-104 | a message is copied over the start of the buffer, older contents staying behind it |
| EthernetFraming.EthernetLink.PutPacket | templates/gdb_templates/eth_gdb.c:236-277 | the messages sent are the serial printer's frame, one for each non-NUL answer polled up to the first '+' |
| EthernetFraming.AnswersCount | templates/gdb_templates/eth_gdb.c:250-274 | the number of frames is the number of polls that gave a character |
| EthernetFraming.SequenceSent | templates/gdb_templates/eth_gdb.c:216-218 | a sequence number is sent back as its two characters, in order, exactly when the third is ':' |
| EthernetFraming.EthernetLink.Format | templates/gdb_templates/eth_gdb.c:242-264 | the buffer of length plus 5 is filled exactly by the serial printer's frame and a NUL |
| EthernetFraming.EthernetLink.Summed | templates/gdb_templates/eth_gdb.c:256-261 | the do-while loop computes the serial checksum, also for an empty text |
| EthernetFraming.EthernetRoundTrip | templates/gdb_templates/eth_gdb.c:144-226 | a frame that fits a message has at most 2044 characters of text, and the string returned from the buffer it leaves is that text exactly under the same condition on ':' as over the serial line |
| TcpQueue.FitIsLongest | templates/eth_templates/seL4TCP-to.template.c:164-174 | the packet buffers copied are the longest prefix of whole ones that fits |
| TcpQueue.WholeChain | templates/eth_templates/seL4TCP-to.template.c:156-174 | when `tot_len` is the sum of the lengths, the whole chain is stored exactly when it fits |
| TcpQueue.MessageIsLongest | templates/eth_templates/seL4TCP-to.template.c:156-174 | whatever `tot_len` and the buffer size, the message is that of the longest run of whole leading packet buffers within both, also for a chain that is too long |
| TcpQueue.StoredWhenRoom | templates/eth_templates/seL4TCP-to.template.c:150-174 | a chain arriving without error while a node is free is stored, so cut, and nothing else ever is |
| TcpQueue.StepIsFifo | templates/eth_templates/seL4TCP-to.template.c:150-202 | one event: messages and window accounting balance |
| TcpQueue.RunIsBoundedFifo | templates/eth_templates/seL4TCP-to.template.c:150-298 | every run polls messages in store order, never queues more than there are nodes, and has told TCP exactly the bytes no longer queued |
| TcpQueue.Client.constructor | templates/eth_templates/seL4TCP-to.template.c:320-332 | the free list threads all nodes, last first, and nothing is queued |
| TcpQueue.Client.Accept | templates/eth_templates/seL4TCP-to.template.c:99-110 | a new connection registers the callbacks and leaves queued messages alone |
| TcpQueue.Client.TcpRecv | templates/eth_templates/seL4TCP-to.template.c:134-202 | when a chain arrives without error and fewer messages than nodes are queued, the longest run of whole packet buffers that fits becomes the last message and is signalled; otherwise it refuses, or handles the close, and the messages stay |
| TcpQueue.Client.Gather | templates/eth_templates/seL4TCP-to.template.c:164-174 | the loop copies the longest fitting prefix of whole packet buffers |
| TcpQueue.Client.StoreMessage | templates/eth_templates/seL4TCP-to.template.c:152-187 | the first free node moves to the end of the used list with the message |
| TcpQueue.Client.Append | templates/eth_templates/seL4TCP-to.template.c:177-187 | linking behind a tail that may be stale when the list is empty keeps both lists acyclic, disjoint and correctly ended |
| TcpQueue.Client.Poll | templates/eth_templates/seL4TCP-to.template.c:275-298 | -1 for empty, else the oldest message's bytes with 1 for the last and 0 when more remain; exactly that message leaves the queue and its length is told to TCP; its node moves to the front of the free list |
| TcpQueue.Client.Serve | templates/eth_templates/seL4TCP-to.template.c:282-297 | the head node's message is copied out, its length told to TCP, its node put at the front of the free list |
| TcpQueue.Client.AllNodesListed | templates/eth_templates/seL4TCP-to.template.c:150-298 | every node of the array is in exactly one of the two lists |
| UartFifo.FifoExactly | templates/gdb_templates/seL4UART.template.c:75-102 | the ring agrees with an unbounded FIFO throughout a run exactly when no character arrives with 254 pending |
| UartFifo.FifoWithoutOverrun | templates/gdb_templates/seL4UART.template.c:75-102 | without such an arrival the ring is a FIFO |
| UartFifo.ReadsInOrder | templates/gdb_templates/seL4UART.template.c:75-102 | over every run without such an arrival the characters pending at first and those received equal the characters reads returned followed by those left |
| UartFifo.OverrunLoses | templates/gdb_templates/seL4UART.template.c:80-88 | such an arrival loses the new character or, with `head` at 254, every pending one |
| UartFifo.OverrunReached | templates/gdb_templates/seL4UART.template.c:75-89 | from the empty ring, 255 characters with no read between them are such an arrival and leave nothing pending |
| UartFifo.RunKeepsValid | templates/gdb_templates/seL4UART.template.c:75-102 | at most 254 characters are ever pending and the indices stay in range |
| UartFifo.WrapAndMask | templates/gdb_templates/seL4UART.template.c:80-87 | masking and wrapping agree except after the last slot |
| UartFifo.FillSlot | templates/gdb_templates/seL4UART.template.c:86-87 | storing at `head` and advancing it appends, or empties the ring when it meets `tail` |
| UartFifo.FreeSlot | templates/gdb_templates/seL4UART.template.c:97-98 | advancing `tail` removes the oldest character |
| UartFifo.Fifo.CharReady | templates/gdb_templates/seL4UART.template.c:50-69 | the number reported is the number of pending characters |
| UartFifo.Fifo.HandleInterrupt | templates/gdb_templates/seL4UART.template.c:75-89 | pushes the character with the mask test and modulo wrap as written |
| UartFifo.Fifo.GetChar | templates/gdb_templates/seL4UART.template.c:91-102 | the character returned was the first pending one and exactly it is removed; NUL and no change when none is pending |

## Left out

- EthernetFraming.EthernetLink.GetPacket: claims only well-formed frames; on an embedded '$' or a bad checksum the loop re-reads the same message, at the same or a shifted position, without receiving another.
- SerialFraming.SerialLink.GetPacket: the stream always has a next character; reading an empty UART ring yields NUL, which the payload loop would store.
- Router.LwipInterface.RawPoll: frames arriving between its calls of the driver are not in this method; `Wakeup` covers every interleaving.
- Stub.DebugStub.HandleBreakpoint: over the serial link only, on a stream where every answer is acknowledged; a call that ends does so because a command resumes the program or debugging is switched off.
- Stub.DebugStub.ReadMemory: lengths of 1024 bytes and more, whose answers overrun the reply buffer, are outside the model.
- EthernetFraming.EthernetLink.Decode: a well-formed frame, like GetPacket.
- StubRoundTrips.WriteThenRead: at most 1023 bytes, since a longer answer overruns the reply buffer; ranges do not wrap past 2^32.
- Overlay.StepSound: breakpoints and instructions at aligned addresses, breakpoints and unstepped stops away from address 0, no writes by M or by the program over a table word or the step word; `AddressZero` and `WriteOverBreakpointLost` show the results otherwise.
- TcpQueue.Client.TcpRecv: message blocks are values, so freeing them is not modelled; `malloc` succeeds.
- EthDriver.Driver.ClientTx: the low-level driver queues every buffer it is given, as its result is ignored.
- The low-level Ethernet drivers: completed lengths are at most the buffer size and completed buffers are ones the hardware holds.
- Early returns for NULL arguments, missing initialisation, missing dataports and missing cookies.
- A packet text is read as NUL beyond its 2048-byte buffer.
- Cache maintenance, barriers and instruction-cache effects.
- `_ready_callback` of the Ethernet stub polls once for each notification, and notifications may merge: no claim that every queued TCP message is consumed.
- `eth_map_paddr` and `eth_unmap_vaddr`: page mapping through libraries that are not part of this model.
- `TCP_SEND`, the TCP and UDP connection callbacks, timers, lwIP itself, and seL4 calls.
- Transfer of registers to and from the thread control block; `P` and `G` change the stub's register block only.
- `debug.py`, `debug_config.py`, Makefiles and CAmkES files: text generation.
