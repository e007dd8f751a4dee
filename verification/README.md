# CH32 board model: verified core

Dafny models of the state machines, loops and arithmetic in the CH32 microcontroller board
model for QEMU (`qemu-overlay/10.2.2/hw/riscv`), with proofs of what they promise. `dafny
verify dfyconfig.toml` checks the whole project.

Code that updates device state in place is a class whose methods are proved equal to a
function of the old state; the properties are then proved about those functions, for all
inputs and all runs. Timers are "armed for an instant", guest memory is a byte sequence or
map, frames and characters sent are an output sequence, and the CPU, the host network and
the character backend are the environment.

| files | what they hold |
|---|---|
| `PficModel`, `PficTheorems`, `PficRuns`, `PficService`, `PficSoftware`, `PficDelivery`, `PficDepth`, `PficClients`, `PficExamples`, `Pfic` | the one interrupt slot that about twenty peripherals share: claims, hand-over, the recursive rescan, invariants over runs, the storm guard, who is left waiting, what becomes of an injection, the handler depth, what each client and register write is promised, and short runs to the failures |
| `GuestMemory`, `EthDescriptors`, `EthTx`, `EthArming`, `EthRing`, `EthRx`, `EthRxRing`, `EthDwmac` | the DWMAC descriptor rings: transmit and receive as FIFOs under whole firmware runs, receive as all-or-nothing delivery, frame accounting |
| `HexFormat`, `HexLoader`, `HexCodec`, `HexSegments` | the Intel HEX loader as a fold over records, a writer in both address dialects and every spelling, the round trip, and where the loader departs from the specification |
| `DmaEngine`, `Dma` | one DMA channel's transfer with its nine width pairs, bus errors and flags |
| `Rcc`, `VirtualTime`, `Counting`, `Timers` | the clock tree and the two counters that are computed from the virtual clock |
| `UsartModel`, `UsartDelivery`, `Usart1` | the byte pipelines of USART1 over circular buffers, and what firmware, memory and backend are given |
| `Gf2`, `Crc` | the CRC unit as polynomial division |
| `FlashModel`, `FlashCommands`, `FlashController` | the flash controller's lock, key sequence, protection and erases, and which command does what |
| `Boot` | the JAL decoder and the repair of the reset vector |
| `Basics`, `Sequences`, `Arithmetic` | shared names and general facts |

## Where a promise has a condition

- The slot invariant (a free slot means MEIP is down; an active bit is set exactly for the
  owner) fails in two ways, and only in these (`PficRuns.Breaks`): interrupt 0, whose
  number means "free", is injected as a software-pended interrupt; or the machine is reset
  while MEIP is up under an owner that is not a USART, because the CPU reset
  (`qemu-overlay/10.2.2/target/riscv/cpu.c:683-745`) clears the slot but not MIP.
- A byte written to DATAR with the USART switched off goes to the backend at once and
  overtakes what still waits in the FIFO. Order is kept exactly when the FIFO holds only
  bytes equal to it.
- A free slot means that nobody is waiting, except after a DMA flag is cleared under the
  owning channel and after a switched-off USB host is visited as owner: both free the slot
  without a rescan (`PficService.Unserves`).
- Nor is a software-pended interrupt left waiting beside a free slot, except after the events
  of `PficSoftware.StrandsSoftware`: only a trap return scans for them, so that one pended
  first and enabled later waits for the next one.
- An injection by a timer or ETH that stands until a trap return has had its handler entered
  by then exactly when it was made outside every handler. One made while a handler runs is
  lost when that returns, and is not repeated while the request stands
  (`PficDelivery.TakenIff`, `PficDelivery.LostUntilWithdrawn`).
- Received frames reach firmware in order, one descriptor after the other, exactly as long as
  no frame overflows a ring whose length does not divide the 16 hops of a search: such a
  search leaves the cursor elsewhere (`EthRxRing.OpKeepsOrder`, `EthRxRing.OverflowOfThree`).
- A HEX data record under type-02 addressing is placed as section 5 of the Intel Hexadecimal
  Object File Format Specification, Revision A (1988), has it exactly when it ends inside its
  64 KiB segment (or the segment lies behind flash). `HexSegments.CrossingRecord` is one that
  is not.
- A SysTick or timer deadline rounds down, so the callback may come one tick early. It does
  exactly when the fraction of a tick already elapsed is smaller than what the rounding
  cut off. SysTick's next callback is then exact; a general timer starts over from 0.
- `muldiv64` cuts its quotient to 64 bits. The SysTick deadline is right exactly when the
  instant meant lies below 2^64 ns; on the reset clock a compare value of 2^61 arms the timer
  for the present instant (`Counting.FarCompare`).
- A failed DMA element leaves memory as after the elements before it exactly when it could
  not be read, or the mapped part of its target held the stored bytes already.
- A timer whose count was just set more than one past its reload value is armed a 32-bit
  wrap-around away; in every other case the ticks left are between one and a whole period.
- The LOCK bit of the flash CTLR register stops showing the lock exactly when CTLR is
  written without it while locked.
- OPTWRE needs the option keys, unless CTLR is written with it, which needs none.

## Where code and comments disagree

The models follow the code.

- `ch32_pfic_on_mret` is described as running for the outermost trap return only
  (`ch32-stk-pfic.c:468-478`); `helper_mret` calls it for every return from a vectored
  handler while the slot is occupied.
- `ch32_pfic_resync_software_pending` names bit 24 for SysTick; the table uses bit 12.
- `ch32-machine-internal.h:851-853` gives the vector constants as jumps by +0x20200 and
  +0x20201C; they decode to +0x202 and +0x1202 (`Boot.VectorTargets`).
- A timer or ETH block whose latch is set does not keep the slot over a trap return, although
  its request is unchanged (`PficRuns.MretKeepsOwnerIff`).
- A HEX data record that crosses a 64 KiB boundary is written on linearly, where section 5 of
  the Intel HEX specification wraps it inside its segment (`HexSegments.RecordAgreesIff`).

## Model

| member | source | states |
|---|---|---|
| `PficRuns.MretHandsOver` | qemu-overlay/10.2.2/hw/riscv/ch32-stk-pfic.c:426-494 | After a trap return the slot holds the first eligible client in table order; if there is none, the lowest pending and enabled interrupt outside the table masks, its pending bit consumed and no other; if there is none either, it is free and MEIP is down |
| `PficRuns.MretKeepsOwnerIff` | qemu-overlay/10.2.2/hw/riscv/ch32-stk-pfic.c:479-494 | A client that owns the slot when a handler returns keeps it if and only if it is itself the first eligible one; a timer or ETH block whose latch is set is not eligible, so it loses the slot and its latch stays |
| `PficRuns.WithdrawalHandsOver` | qemu-overlay/10.2.2/hw/riscv/ch32-stk-pfic.c:380-390 | A client that no longer requests passes its slot to the first eligible client in table order, or leaves it free with MEIP down; except that a USART inside a handler only lowers MEIP and keeps the slot, and a switched-off USB host frees it without a rescan |
| `PficRuns.StepKeepsInv` | qemu-overlay/10.2.2/hw/riscv/ch32-stk-pfic.c:75-99 | Every event keeps "free slot means MEIP down" and "for each non-DMA interrupt other than 0, its active bit is set exactly when it owns the slot", if and only if the event does not inject interrupt 0 and is not a machine reset under a non-USART owner with MEIP up |
| `PficRuns.RunsKeepInv` | qemu-overlay/10.2.2/hw/riscv/ch32-stk-pfic.c:397-417 | The same over runs of any length |
| `PficRuns.MretKeepsInv` | qemu-overlay/10.2.2/hw/riscv/ch32-stk-pfic.c:479-494 | For a trap return the invariant is lost exactly when nobody is eligible and interrupt 0 is enabled and pending |
| `PficRuns.PendKeepsInv` | qemu-overlay/10.2.2/hw/riscv/ch32-stk-pfic.c:674-697 | For a write of the pending-set register it is lost exactly when interrupt 0 is enabled, named by the write, and the slot free |
| `PficRuns.NonOwnerIsHarmless` | qemu-overlay/10.2.2/hw/riscv/ch32-usart.c:210-218 | A client that does not own an occupied slot changes neither slot, nor MEIP, nor any active bit |
| `PficRuns.StepKeepsLatchRule` | qemu-overlay/10.2.2/hw/riscv/ch32-tim.c:187-242 | In one event a timer or ETH is injected only while requesting and with its latch clear, and leaves it set; the latch is cleared only without a request or by a machine reset |
| `PficRuns.StormGuard` | qemu-overlay/10.2.2/hw/riscv/ch32-eth-dwmac.c:370-417 | In every run two injections by the same timer, or by ETH, are separated by a moment at which that source does not request, or by a machine reset |
| `PficService.StepKeepsServed` | qemu-overlay/10.2.2/hw/riscv/ch32-stk-pfic.c:380-390 | Every event keeps "a free slot means that no client is eligible", if and only if it is not one of these: a flag rises and its device has not been resynchronised yet, the visits reach a switched-off USB host that owns the slot and nobody visited after it takes the slot although somebody is eligible, or a DMA flag is cleared under the owning channel while somebody is eligible |
| `PficService.RunsKeepServed` | qemu-overlay/10.2.2/hw/riscv/ch32-stk-pfic.c:380-390 | The same over runs of any length |
| `PficService.ReportKeepsServed` | qemu-overlay/10.2.2/hw/riscv/ch32-stk-pfic.c:336-358 | A device that changes its own flags and is resynchronised keeps it too, unless it is a USB host that switches itself off while owning the slot and somebody is eligible |
| `PficService.BusyPumpWaits` | qemu-overlay/10.2.2/hw/riscv/ch32-usart.c:404-432 | A pump completion that finds the slot busy changes nothing; its channel goes on waiting, and the next trap return gives the slot to somebody and leaves the channel pending |
| `PficSoftware.StepKeepsSoftwareServed` | qemu-overlay/10.2.2/hw/riscv/ch32-stk-pfic.c:426-465 | Every event keeps "a free slot means that no enabled software-pended interrupt waits", if and only if it is not one of these, some such interrupt waiting: a client gives the slot up and no client follows, one is enabled that is pending already while the slot is and stays free, a DMA flag is cleared under the owning channel, or interrupt 0 is injected before another |
| `PficSoftware.VisitsLeaveFree` | qemu-overlay/10.2.2/hw/riscv/ch32-stk-pfic.c:336-358 | Visits to any clients leave the slot free if and only if nobody visited takes a free slot, or the owner gives it up and nobody follows |
| `PficSoftware.RunsKeepSoftwareServed` | qemu-overlay/10.2.2/hw/riscv/ch32-stk-pfic.c:426-465 | The same invariant over runs of any length |
| `PficDelivery.StepEvicts` | qemu-overlay/10.2.2/hw/riscv/ch32-tim.c:187-242 | A timer or ETH block that owns the slot by its own injection keeps slot, latch and MEIP in every event, if and only if that is not a trap return, a machine reset, or a visit to it after its request has gone |
| `PficDelivery.OwnsUntil` | qemu-overlay/10.2.2/hw/riscv/ch32-tim.c:187-242 | In every run an injection leaves its source in the slot, up to the first such event |
| `PficDelivery.TakenIff` | qemu-overlay/10.2.2/hw/riscv/ch32-stk-pfic.c:479-494 | When handlers do not nest, an injection that a trap return ends had a handler entered before, that of its source, if and only if it was made outside every handler |
| `PficDelivery.LostUntilWithdrawn` | qemu-overlay/10.2.2/hw/riscv/ch32-tim.c:187-242 | After a trap return has taken the slot from its source, the source is not injected again while it goes on requesting |
| `PficDepth.DepthCounts` | qemu-overlay/10.2.2/target/riscv/wch-qingke.h:108-126 | In every run the handler depth is what it was plus the traps minus the trap returns since, as long as every return has its trap; so matched traps and returns restore it |
| `PficDepth.DepthAfterReset` | qemu-overlay/10.2.2/target/riscv/cpu.c:683-745 | A machine reset makes it 0 |
| `PficDepth.UsartPassesOn` | qemu-overlay/10.2.2/hw/riscv/ch32-usart.c:187-253 | Once every handler entered since power-on or reset has returned, a USART that owns the slot without requesting leaves it, when it is resynchronised, to the first eligible client, or free if there is none |
| `PficClients.TableIsPriority` | qemu-overlay/10.2.2/hw/riscv/ch32-stk-pfic.c:336-358 | The table, in which clients are repeated, amounts to one list of priorities: USART1, the light USARTs, the timers, the 10M ETH, the DWMAC, the USB hosts, the DMA channels by number |
| `PficClients.Precedence` | qemu-overlay/10.2.2/hw/riscv/ch32-stk-pfic.c:479-494 | A trap return gives the slot to the first client of that list that is eligible |
| `PficClients.CoveredIsMasked` | qemu-overlay/10.2.2/hw/riscv/ch32-stk-pfic.c:426-465 | The software scan skips exactly the interrupts that the table's masks name |
| `PficClients.RequestClaims` | qemu-overlay/10.2.2/hw/riscv/ch32-usart.c:187-253 | A visit to an eligible client gives it a free slot with MEIP up and its active bit set, and raises MEIP again for the owner |
| `PficClients.OwnerInjectedAgain` | qemu-overlay/10.2.2/hw/riscv/ch32-eth-10m.c:216-276 | A latched 10M ETH that owns the slot outside handlers is injected again |
| `PficClients.WithdrawalRearms` | qemu-overlay/10.2.2/hw/riscv/ch32-tim.c:187-242 | A visit to a timer or ETH block without a request clears its latch and takes the slot from it |
| `PficClients.RewriteChangesNothing` | qemu-overlay/10.2.2/hw/riscv/ch32-stk-pfic.c:658-673 | Enabling what is enabled, and disabling what is not, changes nothing |
| `PficClients.DisableReleases` | qemu-overlay/10.2.2/hw/riscv/ch32-stk-pfic.c:666-673 | Disabling the interrupt of a client that owns the slot, DMA channels apart, takes the slot from it, if and only if it is not a USART inside a handler |
| `PficClients.PendHandsOver` | qemu-overlay/10.2.2/hw/riscv/ch32-stk-pfic.c:674-697 | A pending-set write on a free slot makes the lowest enabled interrupt it names, the software interrupt apart, the owner, and leaves the others it names pending |
| `PficClients.PendOnly` | qemu-overlay/10.2.2/hw/riscv/ch32-stk-pfic.c:674-697 | If it names none, or the slot is taken, it only sets pending bits |
| `PficClients.PumpFires` | qemu-overlay/10.2.2/hw/riscv/ch32-usart.c:404-432 | On a free slot the pump's completion does what any DMA completion does |
| `PficClients.ResetForgets` | qemu-overlay/10.2.2/hw/riscv/ch32-v.c:274-359 | After a machine reset nobody is eligible, nothing is pending, the slot is free and no latch of the board is set |
| `PficExamples.FlagClearStrandsUsart` | qemu-overlay/10.2.2/hw/riscv/ch32-dma.c:443-470 | From power-on, clearing the flag of the owning DMA channel frees the slot while USART1 goes on waiting |
| `PficExamples.HostOffStrandsUsart` | qemu-overlay/10.2.2/hw/riscv/ch32-usb-hs-host.c:121-133 | From power-on, so does a USB host that leaves host mode while owning the slot |
| `PficExamples.LateEnableStrandsSoftware` | qemu-overlay/10.2.2/hw/riscv/ch32-stk-pfic.c:658-665 | From power-on, an interrupt pended first and enabled later waits beside a free slot |
| `PficExamples.InjectedInHandlerIsLost` | qemu-overlay/10.2.2/hw/riscv/ch32-tim.c:187-242 | From power-on, a timer claims the slot inside another handler and loses it at the return, still requesting and with its latch set |
| `PficExamples.UsartKeepsSlotInHandler` | qemu-overlay/10.2.2/hw/riscv/ch32-usart.c:187-253 | From power-on, a USART that withdraws inside its handler keeps the slot with MEIP down |
| `PficExamples.InterruptZeroBreaksInv` | qemu-overlay/10.2.2/hw/riscv/ch32-stk-pfic.c:75-99 | From power-on, enabling and pending interrupt 0 leaves MEIP up beside a slot that reads as free |
| `PficExamples.ResetBreaksInv` | qemu-overlay/10.2.2/hw/riscv/ch32-v.c:274-359 | From power-on, a machine reset under a software-pended owner does the same |
| `PficExamples.PendedTimerKeepsSlot` | qemu-overlay/10.2.2/hw/riscv/ch32-stk-pfic.c:674-697 | From power-on, a timer made owner by a pending-set write has its latch clear and gets the slot back at the trap return |
| `PficTheorems.RescanIsHandover` | qemu-overlay/10.2.2/hw/riscv/ch32-stk-pfic.c:336-358 | The recursive rescan of a free slot equals one hand-over: first eligible client claims, stale latches are cleared, requesting DMA channels are left pending |
| `PficTheorems.FirstIsFirst` | qemu-overlay/10.2.2/hw/riscv/ch32-stk-pfic.c:380-390 | The hand-over picks the first client of the order that would take a free slot, and none only if there is none |
| `PficMachine.Machine.RescanPending` | qemu-overlay/10.2.2/hw/riscv/ch32-stk-pfic.c:380-390 | Terminates although withdrawing clients call back into it, visits the clients in table order, and from a free slot is the hand-over |
| `PficMachine.Machine.ResyncClient` | qemu-overlay/10.2.2/hw/riscv/ch32-stk-pfic.c:336-358 | One table entry visits exactly its clients, in order |
| `PficMachine.Machine.ResyncChanged` | qemu-overlay/10.2.2/hw/riscv/ch32-stk-pfic.c:360-372 | Visits exactly the clients of the entries whose mask meets the changed enable bits |
| `PficMachine.Machine.UsartResync` | qemu-overlay/10.2.2/hw/riscv/ch32-usart.c:187-253 | A USART claims, keeps, masks or passes on the slot as specified, recursion included |
| `PficMachine.Machine.UsartLiteResync` | qemu-overlay/10.2.2/hw/riscv/ch32-usart.c:982-1043 | All light USARTs in turn |
| `PficMachine.Machine.LatchedResync` | qemu-overlay/10.2.2/hw/riscv/ch32-tim.c:187-242 | A timer, or ETH, claims once per request and passes the slot on when the request goes |
| `PficMachine.Machine.TimResyncAll` | qemu-overlay/10.2.2/hw/riscv/ch32-tim.c:638-645 | All timers in turn |
| `PficMachine.Machine.Eth10mWithdraw` | qemu-overlay/10.2.2/hw/riscv/ch32-eth-10m.c:185-203 | Withdraws with or without a rescan of the others |
| `PficMachine.Machine.Eth10mResync` | qemu-overlay/10.2.2/hw/riscv/ch32-eth-10m.c:216-276 | Like the timers, but withdraws and injects again when it is visited as the owner outside every handler |
| `PficMachine.Machine.UsbHostResync` | qemu-overlay/10.2.2/hw/riscv/ch32-usb-hs-host.c:105-162 | Both USB hosts: claim, keep, pass on, or free silently when switched off |
| `PficMachine.Machine.DmaFireIrq` | qemu-overlay/10.2.2/hw/riscv/ch32-dma.c:137-166 | Takes a free slot, otherwise leaves a pending bit; nothing when disabled |
| `PficMachine.Machine.DmaResync` | qemu-overlay/10.2.2/hw/riscv/ch32-dma.c:181-216 | Fires every channel with completion flag and enable, in channel order |
| `PficMachine.Machine.DmaFinishIrq` | qemu-overlay/10.2.2/hw/riscv/ch32-usart.c:404-432 | The USART pump's completion: takes a free slot, otherwise changes nothing, not even a pending bit |
| `PficMachine.Machine.WriteDmaIntfcr` | qemu-overlay/10.2.2/hw/riscv/ch32-dma.c:443-470 | Clearing the flag of the owning channel frees the slot, without rescanning |
| `PficMachine.Machine.InjectMeipForIrq` | qemu-overlay/10.2.2/hw/riscv/ch32-stk-pfic.c:75-99 | Gives a free slot to the lowest of the given interrupts and consumes its pending bit |
| `PficMachine.Machine.ResyncSoftwarePending` | qemu-overlay/10.2.2/hw/riscv/ch32-stk-pfic.c:426-465 | The word-by-word scan injects the lowest pending and enabled interrupt outside the masks, over all eight words |
| `PficMachine.Machine.PficOnMret` | qemu-overlay/10.2.2/hw/riscv/ch32-stk-pfic.c:479-494 | Frees the slot, rescans the clients, then the software-pended interrupts |
| `PficMachine.Machine.TrapReturn` | qemu-overlay/10.2.2/target/riscv/op_helper.c:415-441 | The call-back runs whenever a vectored handler returns and the slot is occupied |
| `PficMachine.Machine.WriteIenr` | qemu-overlay/10.2.2/hw/riscv/ch32-stk-pfic.c:658-665 | Enable write and resync of what changed |
| `PficMachine.Machine.WriteIrer` | qemu-overlay/10.2.2/hw/riscv/ch32-stk-pfic.c:666-673 | Disable write and resync of what changed |
| `PficMachine.Machine.WriteIpsr` | qemu-overlay/10.2.2/hw/riscv/ch32-stk-pfic.c:674-697 | Pending-set write; the lowest enabled bit of the write is injected into a free slot |
| `PficMachine.Machine.Reset` | qemu-overlay/10.2.2/hw/riscv/ch32-v.c:274-359 | The reset sequence with its resyncs ends in the reset state; MEIP survives unless a USART owned the slot, because the CPU reset clears the slot but not MIP |
| `PficMachine.Machine.ResetUsarts` | qemu-overlay/10.2.2/hw/riscv/ch32-usart.c:1213-1237 | The USART resets, resyncing with all lines down, free at most a USART's slot |
| `EthTx.WalkSendsQueue` | qemu-overlay/10.2.2/hw/riscv/ch32-eth-dwmac.c:811-893 | On a well-formed chain one call sends exactly the first frames, up to the bound, of the run of owned descriptors from the cursor, whole and in chain order, clears their OWN bits, and leaves the cursor behind the last |
| `EthTx.WalkOnlyDisowns` | qemu-overlay/10.2.2/hw/riscv/ch32-eth-dwmac.c:802-809 | Nothing else in memory changes: each of those OWN bits is cleared once and every other byte is as before |
| `EthArming.ArmExtendsQueue` | qemu-overlay/10.2.2/hw/riscv/ch32-eth-dwmac.c:786-800 | Writing a legal control word, a buffer apart from all descriptors, and OWN into the first descriptor behind the queue, the next one being free or the ring full, makes the queue longer by exactly that frame |
| `EthArming.SpareWriteKeepsQueue` | qemu-overlay/10.2.2/hw/riscv/ch32-eth-dwmac.c:786-800 | Writing any bytes outside the descriptors and the queued buffers leaves the queue and its frames as they are |
| `EthArming.ArmIsFirmwareStep` | qemu-overlay/10.2.2/hw/riscv/ch32-eth-dwmac.c:811-893 | Arming a descriptor is a firmware step that arms exactly its frame |
| `EthArming.FillIsFirmwareStep` | qemu-overlay/10.2.2/hw/riscv/ch32-eth-dwmac.c:811-893 | Filling a spare buffer is a firmware step that arms nothing |
| `EthTx.DeviceKeepsFifo` | qemu-overlay/10.2.2/hw/riscv/ch32-eth-dwmac.c:811-893 | A device step keeps it and sends all that is armed, up to 16 frames |
| `EthTx.RunIsFifo` | qemu-overlay/10.2.2/hw/riscv/ch32-eth-dwmac.c:811-893 | In every run of firmware and device steps between two device resets each armed frame is sent at most once and in order: sent is a prefix of armed, and the rest waits in the chain |
| `EthTx.RunMakesProgress` | qemu-overlay/10.2.2/hw/riscv/ch32-eth-dwmac.c:811-893 | After n device steps of a run, whatever firmware does in between, at least the first 16 n frames that waited at its start are sent, or all of them |
| `EthRing.OpKeepsRing` | qemu-overlay/10.2.2/hw/riscv/ch32-eth-dwmac.c:786-893 | "Exactly the descriptors of the frames that wait are owned, in chain order from the cursor" is kept by filling a spare buffer, by arming a descriptor whenever fewer frames wait than the ring has descriptors, and by the device |
| `EthRing.RingIsFifo` | qemu-overlay/10.2.2/hw/riscv/ch32-eth-dwmac.c:811-893 | From a ring in that state every run of such operations, in any order, sends the armed frames once each and in order, and ends in such a state |
| `EthRing.RingProgress` | qemu-overlay/10.2.2/hw/riscv/ch32-eth-dwmac.c:811-893 | And every device turn of it sends 16 frames more, or all that waited |
| `EthRing.BadLengthSkipped` | qemu-overlay/10.2.2/hw/riscv/ch32-eth-dwmac.c:848-856 | A descriptor with a length of 0 or above 2048 is handed back without a frame, and the walk goes on behind it |
| `EthRing.BadBufferStops` | qemu-overlay/10.2.2/hw/riscv/ch32-eth-dwmac.c:857-864 | One with a buffer outside SRAM is handed back, reported, and ends the walk behind it |
| `EthRing.OpenEnd` | qemu-overlay/10.2.2/hw/riscv/ch32-eth-dwmac.c:836-892 | A cursor outside SRAM, and one that follows a link out of SRAM, returns to the list |
| `EthDescriptors.StatusWord` | qemu-overlay/10.2.2/hw/riscv/ch32-eth-dwmac.c:786-800 | OWN and the checksum field of the 32-bit status word are the bits the byte-wise model reads |
| `EthDescriptors.StatusWritten` | qemu-overlay/10.2.2/hw/riscv/ch32-eth-dwmac.c:802-809 | Writing the status word with OWN cleared changes exactly that bit |
| `EthDescriptors.DisownAllBytes` | qemu-overlay/10.2.2/hw/riscv/ch32-eth-dwmac.c:802-809 | Clearing the OWN bits of several owned, distinct descriptors lowers exactly their bytes by 128 |
| `EthDwmac.Dwmac.ReadTxDescriptor` | qemu-overlay/10.2.2/hw/riscv/ch32-eth-dwmac.c:786-800 | The four words read give owner, checksum field, 13-bit length, buffer and link |
| `EthDwmac.Dwmac.ClearOwn` | qemu-overlay/10.2.2/hw/riscv/ch32-eth-dwmac.c:802-809 | The write-back clears only OWN |
| `EthDwmac.Dwmac.SendOne` | qemu-overlay/10.2.2/hw/riscv/ch32-eth-dwmac.c:836-892 | One turn of the transmit loop is one step of the walk, on every exit |
| `EthDwmac.Dwmac.ProcessTx` | qemu-overlay/10.2.2/hw/riscv/ch32-eth-dwmac.c:811-893 | The transmit loop is the walk of at most 16 descriptors, and nothing when stopped or without a list |
| `EthRx.DeliverAllOrNothing` | qemu-overlay/10.2.2/hw/riscv/ch32-eth-dwmac.c:897-997 | A frame is written whole to the first owned descriptor exactly when that lies within the hop bound and has room in SRAM; otherwise memory is unchanged |
| `EthRx.PlacedBytes` | qemu-overlay/10.2.2/hw/riscv/ch32-eth-dwmac.c:954-979 | After a delivery every byte of memory is the status word's over the first four bytes of the descriptor, else the frame's in the buffer, else as before |
| `EthRx.PlacedContents` | qemu-overlay/10.2.2/hw/riscv/ch32-eth-dwmac.c:954-979 | The descriptor then reads back with OWN clear, length + 4 and first, last and type bits; the whole frame reads back exactly when the status word did not change it |
| `EthRx.StepAccounts` | qemu-overlay/10.2.2/hw/riscv/ch32-eth-dwmac.c:897-997 | A service step accounts for the stashed frame: placed whole at the first owned descriptor from the cursor on, if that lies within 16 hops and takes it; else dropped with memory unchanged, as are frames while receive is off; a device reset drops it too; no other step of the device changes memory or loses a frame |
| `EthRx.RunAccounts` | qemu-overlay/10.2.2/hw/riscv/ch32-eth-dwmac.c:897-997 | In every run each frame that left did so at one service step or reset with exactly that account |
| `EthRx.StepConserves` | qemu-overlay/10.2.2/hw/riscv/ch32-eth-dwmac.c:1141-1174 | Every step, resets of the device included, keeps "accepted = left ++ stashed", the outcome of a service step being that of the search through memory |
| `EthRx.RunConserves` | qemu-overlay/10.2.2/hw/riscv/ch32-eth-dwmac.c:897-997 | Over every run the accepted frames are, in order, those delivered or dropped (by a reset too) and the one still stashed |
| `EthRx.ReportedSize` | qemu-overlay/10.2.2/hw/riscv/ch32-eth-dwmac.c:1141-1174 | The network is told to keep a frame for later exactly when receive is on and the stash occupied; a bad size is refused, a frame taken exactly when it can be stashed, every other swallowed |
| `EthRxRing.FirstOwnedTakes` | qemu-overlay/10.2.2/hw/riscv/ch32-eth-dwmac.c:919-981 | On a closed chain the first owned descriptor from the cursor on, within the hop bound, takes the frame if its buffer does, and the cursor then stands at its successor |
| `EthRxRing.NoneOwnedDrops` | qemu-overlay/10.2.2/hw/riscv/ch32-eth-dwmac.c:919-995 | If none is owned the frame is dropped and the cursor has gone round the chain by the number of hops |
| `EthRxRing.LostCursor` | qemu-overlay/10.2.2/hw/riscv/ch32-eth-dwmac.c:919-981 | A cursor outside SRAM, and one that follows a link out of SRAM, returns to the list |
| `EthRxRing.OpKeepsOrder` | qemu-overlay/10.2.2/hw/riscv/ch32-eth-dwmac.c:897-997 | On a ring of N descriptors with buffers apart: "after d deliveries and g frames taken the cursor stands at descriptor d mod N and firmware at g mod N, the frames between lie whole and in order in the descriptors between, and all others are given to the device" is kept by arrivals, service steps and firmware taking frames, if and only if the step is not a frame dropped for want of a descriptor while N does not divide 16 |
| `EthRxRing.FirmwareGetsInOrder` | qemu-overlay/10.2.2/hw/riscv/ch32-eth-dwmac.c:897-997 | So in every run without such a drop firmware, which looks only at OWN bits and links, gets the delivered frames in order |
| `EthRxRing.FrameWaits` | qemu-overlay/10.2.2/hw/riscv/ch32-eth-dwmac.c:954-979 | The k-th delivered frame is shown by descriptor k mod N until firmware takes it |
| `EthRxRing.OverflowOfThree` | qemu-overlay/10.2.2/hw/riscv/ch32-eth-dwmac.c:919-995 | On a ring of three held by firmware a dropped frame leaves the cursor at the second descriptor |
| `EthRxRing.ResetStartsAtList` | qemu-overlay/10.2.2/hw/riscv/ch32-eth-dwmac.c:1387-1428 | After a device reset the next frame goes to the first descriptor of the list, wherever the cursor stood before |
| `EthDwmac.Dwmac.DeliverOne` | qemu-overlay/10.2.2/hw/riscv/ch32-eth-dwmac.c:923-980 | One turn of the receive loop is one hop of the search |
| `EthDwmac.Dwmac.DeliverAlong` | qemu-overlay/10.2.2/hw/riscv/ch32-eth-dwmac.c:919-981 | The receive loop is the search of at most 16 hops |
| `EthDwmac.Dwmac.DeliverRxStash` | qemu-overlay/10.2.2/hw/riscv/ch32-eth-dwmac.c:897-997 | The service step on memory, cursor, stash and record, on every exit; receive event or buffer-unavailable is raised according to the outcome |
| `EthDwmac.Dwmac.NetReceive` | qemu-overlay/10.2.2/hw/riscv/ch32-eth-dwmac.c:1141-1174 | Rejects bad sizes, swallows frames while receive is off, defers while the stash is full, otherwise accepts exactly this frame |
| `EthDwmac.Dwmac.Reset` | qemu-overlay/10.2.2/hw/riscv/ch32-eth-dwmac.c:1387-1428 | The reset step: registers and event bits clear, both cursors 0, a stashed frame forgotten, memory as it was |
| `HexLoader.LoadHexImage` | qemu-overlay/10.2.2/hw/riscv/ch32-hex-loader.c:42-245 | The one-pass parser ends in the fold, in order, of the records before the end-of-file record or the first error; result code, entry, dialect flag and flash are those of the fold, and no access leaves text, line buffer or flash |
| `HexLoader.ReadLine` | qemu-overlay/10.2.2/hw/riscv/ch32-hex-loader.c:90-114 | A line is accepted exactly when it is an even number of hex digits for at most 512 bytes, and the buffer then holds those bytes |
| `HexLoader.ByteSum` | qemu-overlay/10.2.2/hw/riscv/ch32-hex-loader.c:122-131 | The 8-bit loop computes the byte sum modulo 256 |
| `HexLoader.WriteData` | qemu-overlay/10.2.2/hw/riscv/ch32-hex-loader.c:145-192 | A data record goes where the address mapping says, or nowhere |
| `HexLoader.CopyRecord` | qemu-overlay/10.2.2/hw/riscv/ch32-hex-loader.c:180-190 | The copy is cut off at the end of flash |
| `HexLoader.ApplyRecord` | qemu-overlay/10.2.2/hw/riscv/ch32-hex-loader.c:144-232 | One record's effect, or rejection without any change |
| `HexFormat.PlaceBytes` | qemu-overlay/10.2.2/hw/riscv/ch32-hex-loader.c:180-190 | A placed record keeps the flash size, shows its bytes where it covers flash and the old contents elsewhere |
| `HexFormat.FoldKeepsSize` | qemu-overlay/10.2.2/hw/riscv/ch32-hex-loader.c:66-232 | No record sequence changes the flash size |
| `HexFormat.FoldConcat` | qemu-overlay/10.2.2/hw/riscv/ch32-hex-loader.c:66-232 | Loading a concatenation is loading one part after the other, unless the first is rejected |
| `HexCodec.RecordsRead` | qemu-overlay/10.2.2/hw/riscv/ch32-hex-loader.c:66-199 | The parser reads exactly the written records, and then what follows them, for every spelling: tabs, spaces and line ends before a record, either case of every digit, and CR LF, LF or CR behind it |
| `HexCodec.LinearFolds` | qemu-overlay/10.2.2/hw/riscv/ch32-hex-loader.c:208-215 | Folding the type-04 form puts every chunk in its place |
| `HexCodec.SegmentFolds` | qemu-overlay/10.2.2/hw/riscv/ch32-hex-loader.c:197-203 | Folding the offset-0 form with type-02 records puts every chunk in its place |
| `HexCodec.RoundTrip` | qemu-overlay/10.2.2/hw/riscv/ch32-hex-loader.c:42-245 | For every image, every way of cutting it into records of 1 to 255 bytes, every spelling of the records, and every ending (an end-of-file record with or without a line end, or none), loading the written file restores the image and leaves the flash behind it alone, in the linear dialect and, up to 1 MiB, in the segmented one; the segmented file encodes the image by section 5 of the Intel HEX specification for exactly the cuttings of `HexSegments.SegmentsEncodeIff` |
| `HexSegments.RecordAgreesIff` | qemu-overlay/10.2.2/hw/riscv/ch32-hex-loader.c:145-192 | Under type-02 addressing a data record is placed as section 5 of the Intel HEX specification has it, whatever flash holds, if and only if it ends inside its 64 KiB segment or the segment lies behind flash |
| `HexSegments.CrossingRecord` | qemu-overlay/10.2.2/hw/riscv/ch32-hex-loader.c:180-190 | Two bytes at offset 0xFFFF: the second one goes behind the segment, not to its start |
| `HexSegments.FoldsAgree` | qemu-overlay/10.2.2/hw/riscv/ch32-hex-loader.c:144-232 | Every record sequence without a crossing data record loads as section 5 has it |
| `HexSegments.SegmentsEncodeIff` | qemu-overlay/10.2.2/hw/riscv/ch32-hex-loader.c:180-203 | The segmented file, read by section 5, restores the image over every flash, if and only if no record crosses a 64 KiB boundary |
| `HexCodec.EntryLoaded` | qemu-overlay/10.2.2/hw/riscv/ch32-hex-loader.c:217-225 | A start address record yields its entry and the same flash |
| `HexCodec.DamagedLineRejected` | qemu-overlay/10.2.2/hw/riscv/ch32-hex-loader.c:122-131 | A line with exactly one wrong byte is never accepted |
| `HexCodec.LineIff` | qemu-overlay/10.2.2/hw/riscv/ch32-hex-loader.c:115-143 | A line's bytes are taken as a record exactly when they are what the writer makes of that record: length, address, type, data and checksum |
| `HexCodec.LineTextIff` | qemu-overlay/10.2.2/hw/riscv/ch32-hex-loader.c:90-114 | A line's text is read as some bytes exactly when it spells them in some mixture of cases, up to a line end or the end of the text, and they are at most 512 |
| `HexCodec.StrayStopsLoad` | qemu-overlay/10.2.2/hw/riscv/ch32-hex-loader.c:66-89 | Behind any written lines a character that is neither blank nor colon stops the load with an error, what was loaded staying in flash |
| `HexCodec.OtherTypesIgnored` | qemu-overlay/10.2.2/hw/riscv/ch32-hex-loader.c:226-232 | Records of type 03 or above 05 are passed over |
| `HexCodec.RejectedIff` | qemu-overlay/10.2.2/hw/riscv/ch32-hex-loader.c:193-232 | Only address and entry records of the wrong length are rejected |
| `HexCodec.OffsetIff` | qemu-overlay/10.2.2/hw/riscv/ch32-hex-loader.c:145-192 | Data goes to flash at its base address, and without type-04 addressing also at offset 0 |
| `HexCodec.BaseRecords` | qemu-overlay/10.2.2/hw/riscv/ch32-hex-loader.c:193-215 | A type-02 record sets the segment base to 16 times its value, a type-04 record the upper half of the address; neither touches flash |
| `Dma.Channel.Exec` | qemu-overlay/10.2.2/hw/riscv/ch32-dma.c:237-364 | For every configuration memory becomes that of the reference transfer, and in particular that of `DmaEngine.ToMemory` or `ToPeripheral` on the registers; only bits 4(n-1) and 4(n-1)+1, or +3 on error, of channel n's flags are added; EN and CNTR end 0, other configuration bits and addresses stay; the interrupt fires exactly with TCIE, or TEIE on error |
| `Dma.Channel.MoveAll` | qemu-overlay/10.2.2/hw/riscv/ch32-dma.c:262-328 | The loop with its address steps is the reference transfer and fails exactly at the first element that does not answer |
| `Dma.Channel.MoveElement` | qemu-overlay/10.2.2/hw/riscv/ch32-dma.c:267-324 | All nine width pairs zero-extend or truncate byte-wise |
| `DmaEngine.DecodeInverts` | qemu-overlay/10.2.2/hw/riscv/ch32-dma.c:248-254 | Decoding a configuration word gives back direction, increments and widths, whatever the other bits, those above 11 included |
| `DmaEngine.UnitSize` | qemu-overlay/10.2.2/hw/riscv/ch32-dma.c:228-235 | Width field 1 and no other gives 2 bytes, field 2 and no other gives 4, the rest 1 |
| `DmaEngine.Reach` | qemu-overlay/10.2.2/hw/riscv/ch32-dma.c:75-91 | Every element before the reached one answers on the bus, and the reached one does not |
| `DmaEngine.BlockTransfer` | qemu-overlay/10.2.2/hw/riscv/ch32-dma.c:262-328 | A block away from its source is copied without error: byte j of element i is byte j of source element i before the transfer, or zero; nothing else changes |
| `DmaEngine.ToMemory` | qemu-overlay/10.2.2/hw/riscv/ch32-dma.c:262-328 | With DIR 0 and sides that lie apart and answer: byte j of element i at MADDR, plus i times the memory width if MINC, is byte j of the element at PADDR, plus i times the peripheral width if PINC, as it was before, or 0 beyond its width; without MINC the last element stays; nothing else changes |
| `DmaEngine.ToPeripheral` | qemu-overlay/10.2.2/hw/riscv/ch32-dma.c:262-328 | With DIR 1 the same from MADDR to PADDR |
| `DmaEngine.FaultKeepsPrefix` | qemu-overlay/10.2.2/hw/riscv/ch32-dma.c:350-363 | A bus error at element k leaves exactly the first k elements transferred, if and only if the element could not be read or the mapped part of its target already holds what the write stores |
| `DmaEngine.FaultLeavesByte` | qemu-overlay/10.2.2/hw/riscv/ch32-dma.c:262-363 | A half-word written over the end of mapped memory leaves its first byte there |
| `DmaEngine.FixedTargetHoldsLast` | qemu-overlay/10.2.2/hw/riscv/ch32-dma.c:262-328 | A transfer to a fixed target away from its source raises no error if and only if the target and every source element answer, and then leaves the last element there and changes nothing else |
| `DmaEngine.ValueResizes` | qemu-overlay/10.2.2/hw/riscv/ch32-dma.c:267-324 | Passing a little-endian value through a wider or narrower buffer pads with zeros or truncates |
| `Rcc.ClockBound` | qemu-overlay/10.2.2/hw/riscv/ch32-rcc.c:61-129 | Every CFGR0 value on oscillators up to 24 MHz keeps SYSCLK, HCLK, SysTick and timer clocks at or below 384 MHz |
| `Rcc.TimerClock` | qemu-overlay/10.2.2/hw/riscv/ch32-tim.c:135-150 | With the APB1 divider at 1 the timers count at the rate of HCLK; at 2 they do if and only if HCLK is even or not a multiple of the prescaler's divisor |
| `Rcc.ClockRequested` | qemu-overlay/10.2.2/hw/riscv/ch32-rcc.c:61-129 | For every source, PLL multiplier 2 to 16, AHB divider 1 to 512 (32 apart) and APB1 divider 1 to 16 the register value for them gives exactly the core, APB1, SysTick and timer clocks wanted |
| `Counting.OnTimeIff` | qemu-overlay/10.2.2/hw/riscv/ch32-stk-pfic.c:189-221 | SysTick is armed in the future for an instant that shows the next multiple of CMP, or one short of it, if and only if the instant meant lies below 2^64 ns; which of the two is decided by two remainders |
| `Counting.FarCompare` | qemu-overlay/10.2.2/hw/riscv/ch32-stk-pfic.c:216-219 | On the reset clock a compare value of 2^61 cuts the delay to 0: armed for the present instant |
| `Counting.NextAlarmMeetsWrap` | qemu-overlay/10.2.2/hw/riscv/ch32-stk-pfic.c:160-187 | When a callback is one short of a multiple below 2^64, the next one meets it, if its instant lies below 2^64 too |
| `Counting.NoWrapMissed` | qemu-overlay/10.2.2/hw/riscv/ch32-stk-pfic.c:160-221 | When every callback is served at its instant, the m-th multiple of CMP from now is shown at one of the first 2m callbacks, as long as these stay within 64 bits |
| `Counting.WrapIsNext` | qemu-overlay/10.2.2/hw/riscv/ch32-stk-pfic.c:206-217 | The target is the next multiple of CMP, with none in between |
| `Counting.FitsIn64` | qemu-overlay/10.2.2/hw/riscv/ch32-stk-pfic.c:114-128 | The count shown is the ideal one modulo 2^64, so equal to it if and only if that is below 2^64; then the deadline armed is the ideal one if and only if that is below 2^64 |
| `VirtualTime.RoundedWait` | qemu-overlay/10.2.2/hw/riscv/ch32-stk-pfic.c:211-219 | Waiting a rounded-down delay for t ticks ends exactly t further or one short, with the remainder that follows |
| `Counting.CountIsStepped` | qemu-overlay/10.2.2/hw/riscv/ch32-tim.c:174-179 | The count computed from the clock equals a counter stepped once per tick with wrap behind reload |
| `Counting.CountIsSteppedIff` | qemu-overlay/10.2.2/hw/riscv/ch32-tim.c:174-179 | With a base above reload it does so if and only if a tick has passed and the base is one short of a multiple of the period |
| `Counting.TimerShowsSteps` | qemu-overlay/10.2.2/hw/riscv/ch32-tim.c:156-179 | A running timer shows the stepped count |
| `Counting.TimerMeetsUpdate` | qemu-overlay/10.2.2/hw/riscv/ch32-tim.c:249-282 | Unless the count was just set more than one past reload, a timer is armed in the future if and only if the instant meant lies below 2^64 ns, and at that instant it shows 0, having wrapped, or still reload; which one is decided by two remainders |
| `Counting.LeftInPeriod` | qemu-overlay/10.2.2/hw/riscv/ch32-tim.c:272-280 | The ticks left lie between one and a whole period, if and only if the count was not just set more than one past reload |
| `Counting.SetPastReload` | qemu-overlay/10.2.2/hw/riscv/ch32-tim.c:482-486 | A count of 10 over a reload value of 5 leaves 2^32 - 4 ticks to go |
| `Counting.SettledIsStepped` | qemu-overlay/10.2.2/hw/riscv/ch32-tim.c:655-674 | Re-anchoring never corrupts the count: it is the stepped count of the ticks settled so far |
| `Counting.ReanchoringLoss` | qemu-overlay/10.2.2/hw/riscv/ch32-tim.c:655-674 | n re-anchorings cost at most n ticks against a count never settled |
| `Timers.SysTick.NowCnt` | qemu-overlay/10.2.2/hw/riscv/ch32-stk-pfic.c:114-128 | The count is that at the epoch plus the whole ticks since, modulo 2^64 |
| `Timers.SysTick.Schedule` | qemu-overlay/10.2.2/hw/riscv/ch32-stk-pfic.c:189-221 | Armed for the next wrap while counting; otherwise off, with MTIP withdrawn |
| `Timers.SysTick.Tick` | qemu-overlay/10.2.2/hw/riscv/ch32-stk-pfic.c:160-187 | While counting sets CNTIF, raises MTIP if enabled, and arms the next expiry |
| `Timers.SysTick.Reanchor` | qemu-overlay/10.2.2/hw/riscv/ch32-stk-pfic.c:912-922 | Keeps the count shown and moves the epoch to now |
| `Timers.Timer.CntNowAt` | qemu-overlay/10.2.2/hw/riscv/ch32-tim.c:156-179 | While it counts from a base within reload, the count is that of a counter stepped once per tick |
| `Timers.Timer.WriteCnt` | qemu-overlay/10.2.2/hw/riscv/ch32-tim.c:482-486 | The value written is shown at once, and the timer armed from it |
| `Timers.Timer.Schedule` | qemu-overlay/10.2.2/hw/riscv/ch32-tim.c:249-282 | Armed for the next update while counting, otherwise off |
| `Timers.Timer.Tick` | qemu-overlay/10.2.2/hw/riscv/ch32-tim.c:285-314 | Starts over from 0, flags the update unless masked, stops a one-shot timer, latches the preloaded reload value, arms the next update |
| `Timers.Timer.Reanchor` | qemu-overlay/10.2.2/hw/riscv/ch32-tim.c:655-674 | A counting timer keeps the count shown and is armed again; a stopped one is untouched |
| `UsartModel.StepKeepsRx` | qemu-overlay/10.2.2/hw/riscv/ch32-usart.c:441-543 | Every event keeps: consumed ++ FIFO ++ stage = staged, pending exactly when the FIFO is not empty, data register = its head, and a waiting stage has its timer armed |
| `UsartModel.StepKeepsTxFlags` | qemu-overlay/10.2.2/hw/riscv/ch32-usart.c:262-292 | Every event keeps: TX-empty and TX-complete each exactly when the FIFO is empty, and a non-empty FIFO has its timer armed |
| `UsartModel.StepKeepsTxOrder` | qemu-overlay/10.2.2/hw/riscv/ch32-usart.c:623-660 | Every event keeps "output ++ FIFO = accepted", if and only if it is not a write with the USART off that overtakes a different waiting byte |
| `UsartModel.RunsKeepOrder` | qemu-overlay/10.2.2/hw/riscv/ch32-usart.c:330-356 | All of this in every run from reset |
| `UsartModel.WaitingLosesNothing` | qemu-overlay/10.2.2/hw/riscv/ch32-usart.c:138-173 | Firmware that waits for TXE before each write loses no byte, in every run |
| `UsartModel.AskingLosesNothing` | qemu-overlay/10.2.2/hw/riscv/ch32-usart.c:297-320 | In every run with a backend that asks before it delivers and then delivers one byte at most, what it delivered while reception was on is, in order, what firmware has had, what is queued and what is staged |
| `UsartModel.DirectWriteOvertakes` | qemu-overlay/10.2.2/hw/riscv/ch32-usart.c:630-641 | From power-on: on, a byte written, off, another byte written, and the order is lost |
| `UsartDelivery.NothingWithheld` | qemu-overlay/10.2.2/hw/riscv/ch32-usart.c:441-584 | In every run the bytes that DATAR reads returned and the pump left at MADDR, in the order of the events, then the FIFO, then the stage, are what was staged since reset |
| `UsartDelivery.ReadReturnsOldest` | qemu-overlay/10.2.2/hw/riscv/ch32-usart.c:559-584 | A read returns the oldest waiting byte and removes it, or returns 0 |
| `UsartDelivery.ReceiveTakes` | qemu-overlay/10.2.2/hw/riscv/ch32-usart.c:330-356 | Arriving bytes are staged up to 63, in order, when USART and receiver are on |
| `UsartDelivery.CanReceiveIff` | qemu-overlay/10.2.2/hw/riscv/ch32-usart.c:297-320 | The backend is told that it may deliver exactly when a byte more would be staged |
| `UsartDelivery.TickMoves` | qemu-overlay/10.2.2/hw/riscv/ch32-usart.c:498-543 | Every feed tick moves the oldest staged byte to the FIFO, unless that holds 63, and with the pump set up the FIFO's oldest byte to memory |
| `UsartDelivery.PumpFills` | qemu-overlay/10.2.2/hw/riscv/ch32-usart.c:372-491 | With the pump set up and an empty FIFO, k ticks leave the first k staged bytes in memory from MADDR on in steps of the memory width, or the last one there without MINC |
| `UsartDelivery.TxeIff` | qemu-overlay/10.2.2/hw/riscv/ch32-usart.c:138-173 | TXE reads as set exactly when the USART is off, or the transmitter on and its FIFO empty |
| `UsartDelivery.AcceptedIff` | qemu-overlay/10.2.2/hw/riscv/ch32-usart.c:623-660 | A written byte is accepted exactly when the USART is off or fewer than 63 wait |
| `UsartDelivery.DrainProgresses` | qemu-overlay/10.2.2/hw/riscv/ch32-usart.c:262-292 | In every run without a reset the backend is given as many bytes as it is ready for, until all that waited at the start are out |
| `UsartDelivery.ResetIdles` | qemu-overlay/10.2.2/hw/riscv/ch32-usart.c:715-772 | A reset empties and idles both ways, sets both transmit flags and clears the switches |
| `UsartDelivery.CompletionFlags` | qemu-overlay/10.2.2/hw/riscv/ch32-usart.c:404-432 | The pump's last byte raises the global and completion flag of DMA channel 5 |
| `Usart1.Ring.Push` | qemu-overlay/10.2.2/hw/riscv/ch32-usart.c:518-520 | A push into the circular buffer appends to its queue |
| `Usart1.Ring.Pop` | qemu-overlay/10.2.2/hw/riscv/ch32-usart.c:475-476 | A pop removes the head of the queue |
| `Usart1.Ring.Full` | qemu-overlay/10.2.2/hw/riscv/ch32-usart.c:117-121 | Full means 63 bytes |
| `Usart1.Ring.PushAll` | qemu-overlay/10.2.2/hw/riscv/ch32-usart.c:341-350 | The staging loop takes as many bytes as fit, in order |
| `Usart1.Usart1.ReceiveBytes` | qemu-overlay/10.2.2/hw/riscv/ch32-usart.c:330-356 | Staged in order as far as there is room, and the feed timer runs; nothing while reception is off |
| `Usart1.Usart1.DmaWriteByte` | qemu-overlay/10.2.2/hw/riscv/ch32-usart.c:372-396 | The byte reaches memory zero-extended to the channel's width, and the address moves on if it increments |
| `Usart1.Usart1.DmaRxPump` | qemu-overlay/10.2.2/hw/riscv/ch32-usart.c:441-491 | Moves one byte from FIFO to memory exactly when pumping is set up; with the last one clears EN, sets the two flags and fires if enabled |
| `Usart1.Usart1.RxTick` | qemu-overlay/10.2.2/hw/riscv/ch32-usart.c:498-543 | One byte from stage to FIFO, pumped on if set up; re-armed while the stage waits |
| `Usart1.Usart1.ReadDatar` | qemu-overlay/10.2.2/hw/riscv/ch32-usart.c:559-584 | Returns and removes the oldest byte, or 0 |
| `Usart1.Usart1.WriteDatar` | qemu-overlay/10.2.2/hw/riscv/ch32-usart.c:623-660 | Queues the byte, drops it when full, passes it straight on when the USART is off |
| `Usart1.Usart1.TxDrain` | qemu-overlay/10.2.2/hw/riscv/ch32-usart.c:262-292 | Hands over in order what the backend takes, re-arms if it refuses, raises both flags when empty |
| `Usart1.Usart1.Reset` | qemu-overlay/10.2.2/hw/riscv/ch32-usart.c:715-772 | Both paths empty and their timers off |
| `Crc.Word` | qemu-overlay/10.2.2/hw/riscv/ch32-crc.c:28-41 | The 32-turn loop is the word update |
| `Crc.OnlyRemainder` | qemu-overlay/10.2.2/hw/riscv/ch32-crc.c:65-80 | The data register is the remainder of the initialised message followed by 32 zeros, divided by x^32 + 0x04C11DB7, and the only value that is |
| `Crc.KnownAnswer` | qemu-overlay/10.2.2/hw/riscv/ch32-crc.c:28-41 | After a reset a word of zeros leaves 0xC704DD7B: the register starts from all ones |
| `Crc.RegisterIsRemainder` | qemu-overlay/10.2.2/hw/riscv/ch32-crc.c:28-41 | For every word sequence and initial value there is a quotient with message = quotient times generator + register |
| `Gf2.RemainderUnique` | qemu-overlay/10.2.2/hw/riscv/ch32-crc.c:28-41 | Division by the generator has one remainder |
| `Gf2.AppendBit` | qemu-overlay/10.2.2/hw/riscv/ch32-crc.c:33-39 | One shift-and-reduce step is the remainder after one more bit |
| `Crc.ToBitsInjective` | qemu-overlay/10.2.2/hw/riscv/ch32-crc.c:28-41 | Different register values have different bits |
| `Crc.UpdateXor` | qemu-overlay/10.2.2/hw/riscv/ch32-crc.c:28-41 | The word update is linear over exclusive-or |
| `Crc.WordBijective` | qemu-overlay/10.2.2/hw/riscv/ch32-crc.c:28-41 | From any register value every value is reached by exactly one word |
| `Crc.OneWordDetected` | qemu-overlay/10.2.2/hw/riscv/ch32-crc.c:65-80 | Sequences of equal length that differ in exactly one word leave different registers |
| `Crc.Unit.WriteData` | qemu-overlay/10.2.2/hw/riscv/ch32-crc.c:65-72 | The data register is that of all words since the last reset |
| `Crc.Unit.WriteControl` | qemu-overlay/10.2.2/hw/riscv/ch32-crc.c:76-80 | A reset forgets them |
| `FlashModel.StepErases` | qemu-overlay/10.2.2/hw/riscv/ch32-flash.c:206-248 | Contents change only by a start command on an unlocked controller without LOCK, to 0xFF, over exactly the command's range, none of it protected |
| `FlashModel.BlockIsWhole` | qemu-overlay/10.2.2/hw/riscv/ch32-flash.c:85-160 | The range is the aligned block around the address, whole, or cut off by the end of flash for 32K only |
| `FlashModel.StartIsReported` | qemu-overlay/10.2.2/hw/riscv/ch32-flash.c:76-83 | A start command ends with end-of-operation and reports a protection error exactly when its range was protected |
| `FlashModel.RunErases` | qemu-overlay/10.2.2/hw/riscv/ch32-flash.c:85-175 | In every run a byte keeps its value or reads 0xFF, and keeps it unless some command ran while the controller was unlocked, the byte unprotected and in its range |
| `FlashModel.UnlockedIff` | qemu-overlay/10.2.2/hw/riscv/ch32-flash.c:177-190 | Unlocked exactly when, since the last lock or reset, KEY2 directly followed KEY1 in the key stream; locking does not interrupt the stream |
| `FlashModel.LockBitShowsLock` | qemu-overlay/10.2.2/hw/riscv/ch32-flash.c:206-248 | The LOCK bit goes on showing the lock, if and only if CTLR is not written without it while locked |
| `FlashModel.LockBitLost` | qemu-overlay/10.2.2/hw/riscv/ch32-flash.c:206-248 | After a reset, a control write of 0 does that |
| `FlashModel.OptionWritesIff` | qemu-overlay/10.2.2/hw/riscv/ch32-flash.c:192-204 | OPTWRE is set exactly when, since the last reset or control write without it, KEY2 directly followed KEY1 in the option key stream or a control write set it |
| `FlashModel.OptionWritesWithoutKey` | qemu-overlay/10.2.2/hw/riscv/ch32-flash.c:206-248 | After a reset, a control write of OPTWRE sets it without any key |
| `FlashCommands.UnitCommand` | qemu-overlay/10.2.2/hw/riscv/ch32-flash.c:85-160 | PER, PAGE_ER and BER32 with STRT erase exactly the bytes that share the 4 KiB, 256-byte or 32 KiB unit of the address, if no byte of it is protected, and otherwise nothing |
| `FlashCommands.OutsideErasesNothing` | qemu-overlay/10.2.2/hw/riscv/ch32-flash.c:85-160 | With an address outside flash, or in a 4 KiB or 256-byte unit that flash does not hold whole, they erase nothing |
| `FlashCommands.MassCommand` | qemu-overlay/10.2.2/hw/riscv/ch32-flash.c:162-175 | MER erases all of flash if no byte of it is protected, and otherwise nothing |
| `FlashCommands.OtherCommands` | qemu-overlay/10.2.2/hw/riscv/ch32-flash.c:214-240 | The option commands and a bare start erase nothing |
| `FlashCommands.FirstCommandWins` | qemu-overlay/10.2.2/hw/riscv/ch32-flash.c:206-248 | Of several commands the first of MER, OPTER, BER32, PER, PAGE_ER, OPTPG is done as if alone, and only its bit goes, with STRT and PG_STRT |
| `FlashCommands.ProtectionCovers` | qemu-overlay/10.2.2/hw/riscv/ch32-flash.c:47-74 | Protection bit b covers the b-th 4 KiB, and bit 31 everything from the 31st on |
| `FlashCommands.ProtectedIff` | qemu-overlay/10.2.2/hw/riscv/ch32-flash.c:47-74 | A byte is protected exactly when a set bit covers it |
| `FlashCommands.OtherWrites` | qemu-overlay/10.2.2/hw/riscv/ch32-flash.c:241-248 | PG_STRT ends at once with end-of-operation and goes; a status write clears exactly the five bits that can be cleared |
| `FlashCommands.KeysOpen` | qemu-overlay/10.2.2/hw/riscv/ch32-flash.c:177-204 | 0x45670123 and 0xCDEF89AB in turn unlock the controller, or enable option writes |
| `FlashCommands.UnlockClears` | qemu-overlay/10.2.2/hw/riscv/ch32-flash.c:177-190 | Unlocking clears the two lock bits of CTLR and no other |
| `FlashCommands.ResetLocks` | qemu-overlay/10.2.2/hw/riscv/ch32-v.c:228-240 | A reset locks, forgets keys, status and protection, and keeps the contents |
| `FlashController.Controller.WriteControl` | qemu-overlay/10.2.2/hw/riscv/ch32-flash.c:206-248 | The control write, its erase included, is the specified step |
| `FlashController.Controller.Start` | qemu-overlay/10.2.2/hw/riscv/ch32-flash.c:214-240 | Commands in their order of precedence, each clearing its own bits |
| `FlashController.Controller.EraseUnit` | qemu-overlay/10.2.2/hw/riscv/ch32-flash.c:85-133 | 4K and 256-byte erase: the whole aligned unit or nothing |
| `FlashController.Controller.Erase32K` | qemu-overlay/10.2.2/hw/riscv/ch32-flash.c:135-160 | 32K erase: the block up to the end of flash, or nothing if any sector is protected |
| `FlashController.Controller.AnySectorWp` | qemu-overlay/10.2.2/hw/riscv/ch32-flash.c:47-74 | The sector loop finds a protected sector exactly when some byte of the range is protected |
| `FlashController.Controller.EraseBlock` | qemu-overlay/10.2.2/hw/riscv/ch32-flash.c:162-175 | Erases the whole range, or reports protection and changes nothing |
| `FlashController.Controller.WriteKey` | qemu-overlay/10.2.2/hw/riscv/ch32-flash.c:177-190 | The key automaton |
| `FlashController.Controller.WriteOptionKey` | qemu-overlay/10.2.2/hw/riscv/ch32-flash.c:192-204 | KEY2 right behind KEY1 sets OPTWRE, and nothing else changes it or any other bit |
| `Boot.JalRoundTrip` | qemu-overlay/10.2.2/hw/riscv/ch32-boot.c:32-41 | Decoding an encoded JAL gives (pc + offset) mod 2^32 for every pc, register and even offset in [-2^20, 2^20) |
| `Boot.JalDecoded` | qemu-overlay/10.2.2/hw/riscv/ch32-boot.c:32-41 | Every JAL word is the encoding of what it decodes to |
| `Boot.PatchVector` | qemu-overlay/10.2.2/hw/riscv/ch32-boot.c:68-85 | The in-place repair of the first word |
| `Boot.PatchProperties` | qemu-overlay/10.2.2/hw/riscv/ch32-boot.c:68-85 | The patch changes at most word 0, is idempotent, and changes something exactly when it is needed |
| `Boot.VectorTargets` | qemu-overlay/10.2.2/hw/riscv/ch32-boot.c:29-30 | The two constants jump to +0x202 and +0x1202 |
| `Boot.EntryIsAuipc` | qemu-overlay/10.2.2/hw/riscv/ch32-boot.c:43-66 | A target counts as an entry exactly when its word lies inside flash and is AUIPC to the global pointer with any immediate |

## Left out

- Register banks, flag registers and control words whose bits are tested one by one are sets of bit numbers; word accesses, masks and byte lanes of the register decoders are not modelled.
- CPU trap entry and exit other than the slot call-back, the hardware stack, MSIP and MTIP delivery, and `mie.MEIP`, which the USB hosts clear even under another owner.
- The peripherals' own flags inside the arbitration: they are an environment event that may change any request at any time.
- PficMachine.Machine.WriteDmaIntfcr: takes the cleared flags as channels, so the fixed offsets of the flag bits within the register are not modelled.
- USB transaction bridging: it rests on QEMU's USB stack.
- Transmit checksum offload: frames are recorded with the requested checksum field and their bytes before it; `net_checksum_calculate` is not part of this model.
- EthDwmac.Dwmac.ProcessTx: stands for one call; the poll timer, the bottom half and the back-off around it only decide when calls happen.
- Memory behind the SRAM window of the DWMAC model reads as zero and ignores writes, as the gap region does; descriptors in flash or device registers are not modelled, and neither is the receive branch for a failed buffer write, which SRAM cannot take.
- The packet flush inside `ch32_eth_rx_resume`: it is a later receive step.
- EthTx.RunIsFifo: speaks of the time between two device resets. A reset sets the transmit cursor back to 0 and the registers too (`EthDwmac.Dwmac.Reset`), and firmware builds its chain anew.
- EthRxRing.OpKeepsOrder: takes receive to be on with one list, buffers of 2048 bytes, and firmware that looks at one descriptor after the other; switching receive off and device resets are in `EthRx.RunAccounts`.
- PficDelivery.TakenIff: takes handlers not to nest and every trap return to match an entry; which of MEIP, MTIP and MSIP the CPU takes first, and when it enables interrupts, is the CPU's.
- EthTx.WalkSendsQueue: assumes a well-formed chain with descriptors and buffers in SRAM, apart from each other, and lengths from 1 to 2048; what the loop does on any other memory is the walk itself, which `EthDwmac.Dwmac.ProcessTx` proves.
- Reading the HEX file and its console messages; `HexCodec.RoundTrip` needs flash to end below address 2^32, as every board's does.
- DMA register decode, including the overlap at offset 0x490, and transfers from or to device registers: a bus address either answers as memory or gives an error. Host byte order is little-endian.
- Dma.Channel.Exec: reports whether the interrupt fires; what firing does is `PficMachine.Machine.DmaFireIrq`.
- Writing a channel's CFGR with EN set runs the whole transfer and clears EN, so the pump finds EN clear unless something else sets it; `Usart1.Usart1.DmaRxPump` covers every channel state.
- The light USARTs' data paths, USART baud rates and the re-entrant accept call-back of the character backend.
- Counter continuity across a change of clock or prescaler: the new value is stored before the re-anchoring reads the count. `Counting.ReanchoringLoss` is for one frequency.
- The signed 64-bit timer interface: deadlines are taken modulo 2^64, and the general timers are treated within 2^63 ns of their epoch.
- Counting.NoWrapMissed: takes every callback at the instant armed; late callbacks are the host's.
- Timer capture, compare, repetition and DMA registers; the down-counting mode of SysTick, which the code treats like the up-counting one.
- The CRC unit's independent data register, and accesses narrower than a word.
- Flash programming: writes to flash contents do not pass through the controller model. Option bytes have no content.
- The RAM-pointer and error-report plumbing of the boot code, and the ESIG area.
- IWDG, WWDG, ADC, PWR, RNG, SDIO, SPI, I2C, GPIO, BKP, RTC and board tables: register stubs.
