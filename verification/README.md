# Verification of the board support, boot sequence and build checks

Dafny proofs about the parts of the firmware in which several pieces of code
have to agree with each other or with the hardware over whole runs:

- **LED driver** (`Words`, `Gpio`, `PortAccess`, `LedModel`, `Boards`). The
  board support drives LEDs through a list of pins, the `LEDS_*` macros through
  whole words of the same port. Both act on one abstract state, the set of lit
  LEDs, in every mixture of calls, and also when calls are interrupted, between
  any two register accesses, by calls for other pins. Where the board headers
  break this, the exact condition is given.
- **Boot sequence** (`Boot`, `UicrOutcome`, `ResetPin`, `SystemInit`). `SystemInit` may
  rewrite UICR words through the flash controller and reset the chip. The boots
  that follow each other are a machine that makes one register access at a
  time, with arbitrary finite busy times of the controller and power failures at
  any point. Repeated boots come to rest, after at most one reset per unmet
  condition, with known UICR contents; `ResetPin` says exactly when the intended
  pin resets the chip then, with and without power failures. `SystemInit.Chip` is
  the code itself, with its waiting loops, proved to follow that machine.
- **Build checks** (`SdkValidation`). The pairwise `#error` checks on the serial
  peripheral instances say exactly that at most one driver owns an instance; for
  instance 2 they do not, and the exact extent is stated.
- **Atomic FIFO** (`AtomicFifo`, `FifoReservations`, `FifoReports`, `FifoOrder`,
  `FifoProtocol`). The FIFO that the main program and nested interrupt handlers
  share without locks, one access at a time: a reservation loads a tag exclusively,
  compares it with the other tag as that is later, and is refused, stores, or
  starts over. It refines a queue whose specification knows all transactions in
  progress and says exactly when a reservation is refused. From this follow the
  exact conditions of refusals with and without cause, what the calls report,
  order, conservation at every point of every run, and what closing transactions in
  a wrong order exposes.

Registers are 32-bit vectors in `Gpio`, `Boards`, `Boot` and `SystemInit`. In
`PortAccess` and `LedModel` a word is the set of the pins whose bit is one;
`Words` proves that the set determines the word and how `|`, `&`, `& ~` and `^`
act on it, and the contracts of `Gpio` and `Boards` are stated with `Words.Pins`.

`dafny verify dfyconfig.toml` checks the whole project.

## Assumptions

- Hardware: writing `OUTSET` (`OUTCLR`) sets (clears) exactly the bits that are
  one in the written word; a flash write clears the bits that are zero in the
  written word and changes no other; READY stays busy for a finite number of
  reads, of which the code knows nothing; a word in flight when the power fails
  ends up anywhere between its old and its new value; a reset leaves the flash
  controller read-only and ready.
- The code of a boot starts with UICR as the last one left it: the application
  does not write UICR itself.
- An exclusive store fails exactly when an interrupt has come since its exclusive
  load. In the loops that close a transaction or clear the FIFO, every path ends
  in the store and starts over if that fails, so they take effect at the store. In
  the reservations a refusal leaves the loop without a store; there the load, the
  comparison and the store are separate steps.

## Deviations between the sources

- The Arduino Primo is active low, but has inverse mask zero, so that its two LED
  interfaces contradict each other (`Boards.ArduinoPrimoMiswired`).
- Writing 21 to `PSELRESET` does not select pin 21 if flash bits of that number
  had been cleared before (`ResetPin.PinSelectedExactlyWhen`).
- When the power fails during a write of `PSELRESET`, the reset function can stay on
  another pin for good, since later boots only test the connect bits. Erased words
  allow this; the words that do not are exactly those of
  `ResetPin.AlwaysSelectedExactlyWhen`.
- A put can be refused although the FIFO has never been full, and a get although
  there has been an item since before its load, since a refusal compares words of different
  instants and is not retried (`app_atfifo.h:314` and `387` promise otherwise).
  This can happen exactly when the buffer has at least three slots
  (`FifoReservations.PutRefusedWithoutCause`, `GetRefusedWithoutCause`).
- The messages for instance 2 promise a three-way exclusion, but all three
  conditions add up `SPI2` and `SPIS2`
  (`SdkValidation.Instance2ExclusiveExactlyWhen`).

## Model

| member | source | states |
|---|---|---|
| Gpio.Port.InvertMask | components/boards/boards.h:304-307 | snapshot, set, then clear is the exclusive or with the mask |
| Gpio.OutputFields | components/drivers_nrf/hal/nrf_gpio.h:514-531 | an output word has DIR set, the input buffer disconnected, no pull, standard drive and no sensing, read field by field |
| Gpio.InputFields | components/drivers_nrf/hal/nrf_gpio.h:514-544 | an input word has DIR clear, the input buffer connected and the given pull, for every pull value |
| Gpio.Port.PinToggle | components/drivers_nrf/hal/nrf_gpio.h:638-645 | only the given pin changes, to the opposite level |
| PortAccess.InversionFlips | components/boards/boards.h:304-307 | run without interruption, the three accesses of an inversion flip exactly the masked pins |
| PortAccess.InversionTwice | components/boards/boards.h:304-307 | inverting twice restores the word |
| PortAccess.Isolation | components/drivers_nrf/hal/nrf_gpio.h:622-658 | at every point of every interleaving of contexts with disjoint pins, a context sees its pins and its snapshot as if it were alone |
| PortAccess.Frame | components/drivers_nrf/hal/nrf_gpio.h:622-658 | pins that belong to no context keep their level at every point of every interleaving |
| PortAccess.NoLostUpdates | components/drivers_nrf/hal/nrf_gpio.h:622-658 | once all contexts have finished, each one's pins are what its accesses alone would have made them |
| PortAccess.InversionsComposeExactlyWhen | components/boards/boards.h:304-307 | for all masks and levels: two inversions that may interrupt each other anywhere always have the effect of both exactly when their masks are disjoint |
| LedModel.DriveAllPin | components/boards/boards.c:72-88 | the loop over the LEDs changes exactly the listed pins, all to the same level, for lists with or without repetitions |
| LedModel.StepRefines | components/boards/boards.c:53-94 | each index call and each mask macro changes the set of lit LEDs as it is meant to, if the wiring is proper for it: index calls need no inverse mask, the loops over all LEDs and LEDS_INVERT need nothing |
| LedModel.RefinesExactlyWhen | components/boards/boards.c:53-94 | for any wiring: a command does what it means from every word exactly when the wiring is proper for it |
| LedModel.RunRefines | components/boards/boards.h:294-307 | so does every sequence of index calls and mask macros with arbitrary masks for which the wiring is proper, on a consistent board all of them |
| LedModel.RunElsewhere | components/boards/boards.h:232-307 | outside LEDS_MASK a run changes exactly the pins that LEDS_INVERT flips an odd number of times, whatever the polarity |
| LedModel.LoopIsMaskOperation | components/boards/boards.c:72-88 | from any word, the loops leave the same word as LEDS_ON and LEDS_OFF on LEDS_MASK exactly when the polarity agrees |
| LedModel.MaskOnExactly | components/boards/boards.h:298-300 | for any polarity, which LEDs a LEDS_ON lights and switches off, and that it does what it is meant to exactly when its mask has no miswired LED |
| LedModel.MaskOffExactly | components/boards/boards.h:294-296 | the same for LEDS_OFF |
| LedModel.IsOnBitExactlyWhen | components/boards/boards.h:302 | the bit of an LED in LED_IS_ON tells from every word whether that LED is lit exactly when its polarity agrees |
| LedModel.IsOnMeansSomeLit | components/boards/boards.h:302 | for a mask of LED pins, LED_IS_ON has a bit exactly when one of its LEDs is lit |
| LedModel.InvertInAnyOrder | components/boards/boards.c:90-94 | inverting the LEDs of a mask one by one, in any order, is LEDS_INVERT of the mask |
| LedModel.AccessesRun | components/boards/boards.h:294-307 | the register accesses of a command, uninterrupted, have the command's effect |
| LedModel.InterruptedRunRefines | components/boards/boards.c:53-94 | when runs of LED commands on disjoint pins interrupt each other anywhere, the LEDs of each are lit in the end as its own commands mean |
| Boards.SlotsMaskPins | components/boards/boards.h:190-235 | LEDS_MASK has the pins of the BSP_LED_k that are defined and no others |
| Boards.Bsp.LedStateGet | components/boards/boards.c:53-58 | true exactly when the LED is lit |
| Boards.Bsp.LedOn | components/boards/boards.c:60-64 | the port changes as the command On of the model |
| Boards.Bsp.LedOff | components/boards/boards.c:66-70 | the port changes as the command Off of the model |
| Boards.Bsp.LedInvert | components/boards/boards.c:90-94 | the port changes as the command Invert of the model |
| Boards.Bsp.LedsOff | components/boards/boards.c:72-79 | the port changes as the command AllOff of the model |
| Boards.Bsp.LedsOn | components/boards/boards.c:81-88 | the port changes as the command AllOn of the model |
| Boards.Bsp.LedsInit | components/boards/boards.c:96-104 | on every board, all LEDs end up off, and exactly the listed pins become outputs, field by field; these are the pins of LEDS_MASK if that covers the list |
| Boards.Bsp.LedsConfigure | components/boards/boards.h:309-313 | the 32-step loop makes exactly the pins of the mask outputs, field by field |
| Boards.Bsp.MaskOn | components/boards/boards.h:298-300 | LEDS_ON changes the port as the command MaskOn of the model |
| Boards.Bsp.MaskOff | components/boards/boards.h:294-296 | LEDS_OFF changes the port as the command MaskOff of the model |
| Boards.Bsp.MaskInvert | components/boards/boards.h:304-307 | LEDS_INVERT changes the port as the command MaskInvert of the model |
| Boards.Bsp.LedIsOn | components/boards/boards.h:302 | LED_IS_ON has exactly the masked pins whose level differs from the inverse mask |
| Boards.LedIsOnBits | components/boards/boards.h:302 | on a consistent board, LED_IS_ON has the bit of an LED exactly when the LED is in the mask and lit |
| Boards.LedIsOnNonzero | components/boards/boards.h:302 | for a mask of LED pins, the word LED_IS_ON is nonzero exactly when one of these LEDs is lit |
| Boards.LoopAndMaskLeaveSameWord | components/boards/boards.h:294-300 | as 32-bit words: loop and macro leave the same OUT word exactly when the polarity agrees |
| Boards.Bsp.PinToLedIdx | components/boards/boards.c:112-125 | the loop with its break computes the lookup function |
| Boards.Bsp.PinToButtonIdx | components/boards/boards.c:145-158 | the same for buttons |
| Boards.Bsp.LedIdxToPin | components/boards/boards.c:106-110 | the pin of an index is converted back to that index or a smaller one that holds the same pin |
| Boards.Bsp.ButtonIdxToPin | components/boards/boards.c:160-164 | the same for buttons |
| Boards.LookupIsLeastIndex | components/boards/boards.c:112-125 | the lookup returns the least index that holds the pin, and 0xFFFFFFFF exactly when the pin is absent |
| Boards.LookupRoundTrips | components/boards/boards.c:106-125 | index-to-pin undoes pin-to-index on listed pins; pin-to-index undoes index-to-pin on all indices exactly when no pin is listed twice |
| Boards.Bsp.ButtonStateGet | components/boards/boards.c:129-134 | pressed exactly when the input level is the active level |
| Boards.Bsp.ButtonsInit | components/boards/boards.c:136-143 | exactly the listed pins become inputs that can be read and have the board's pull, field by field |
| Boards.ActiveLowBoard | components/boards/boards.h:190-235 | any board with at most eight distinct LEDs whose inverse mask is LEDS_MASK and that is active low is consistent |
| Boards.ShippedBoards | components/boards/pca10040.h:59-68 | five of the shipped boards are consistent |
| Boards.Pca10040Words | components/boards/pca10040.h:59-78 | the words of this board: the pins of LEDS_MASK, the inverse mask, and the PIN_CNF words of its LEDs and buttons |
| Boards.ArduinoPrimoMiswired | components/boards/arduino_primo.h:50-58 | on this board LEDS_ON always switches the LED off |
| Boot.TestIsUnmet | components/toolchain/system_nrf52.c:184-185 | the conditions in the source hold exactly when some word of the part still has the bit that the boot clears |
| Boot.TickInv | components/toolchain/system_nrf52.c:168-198 | every register access keeps the invariant of the boot machine |
| Boot.EveryStepDisciplined | components/toolchain/system_nrf52.c:168-196 | in every reachable step of every run, UICR writes happen only while the controller is write-enabled and ready, and it is read-only and ready at every reset |
| Boot.TickElsewhere | components/toolchain/system_nrf52.c:168-196 | neither part of the boot undoes what the other one has done |
| Boot.TickConserves | components/toolchain/system_nrf52.c:168-196 | the code conserves the number of resets made plus resets owed |
| Boot.FailureOwesNoMore | components/toolchain/system_nrf52.c:168-196 | a power failure, even during a write, adds nothing to the resets owed |
| Boot.ResetBound | components/toolchain/system_nrf52.c:168-196 | at most one reset per unmet condition, at most two in all, however often the power fails; exactly one per unmet condition when it does not |
| Boot.TickProgress | components/toolchain/system_nrf52.c:168-196 | every access of an unfinished boot lowers a bounded measure |
| Boot.EventuallyDone | components/toolchain/system_nrf52.c:168-198 | in every endless run with finitely many power failures some boot completes, and no reset follows |
| Boot.DoneIsFinal | components/toolchain/system_nrf52.c:168-198 | after a completed boot, later boots with the same options and power failures leave UICR and the controller unchanged and make no reset |
| UicrOutcome.TickKeepsOutcome | components/toolchain/system_nrf52.c:168-196 | each access preserves the contents that UICR will finally have |
| UicrOutcome.ExactContents | components/toolchain/system_nrf52.c:168-196 | what a completed boot has left in each word, from the words at power-on |
| UicrOutcome.ErasedContents | components/toolchain/system_nrf52.c:168-196 | on a new chip, a completed boot has left 0xFFFFFFFE, 21 and 21 |
| UicrOutcome.OnlyIntendedBitsChange | components/toolchain/system_nrf52.c:172-190 | however often the power fails, NFCPINS changes only in the protection bit, and PSELRESET words lose no bit of the pin number |
| ResetPin.PinSelectedExactlyWhen | components/toolchain/system_nrf52.c:184-190 | without power failures, a completed boot has selected the intended reset pin exactly when the words at power-on allowed it |
| ResetPin.EarlierPinPreventsSelection | components/toolchain/system_nrf52.c:188-190 | a concrete word for which the intended pin is never selected |
| ResetPin.RunInSequence | components/toolchain/system_nrf52.c:188-191 | in every run with power failures, the second word gets connected only after the first one has been written completely |
| ResetPin.AlwaysSelectedExactlyWhen | components/toolchain/system_nrf52.c:184-190 | for all words at power-on: every run that comes to rest, however often the power fails, selects the intended pin exactly when the words meet a condition on their connect and pin bits |
| ResetPin.ErasedWordsNotProof | components/toolchain/system_nrf52.c:184-190 | erased words do not meet it: a run that leaves the reset function on pin 31 |
| SystemInit.Chip.WaitReady | components/toolchain/system_nrf52.c:171 | the waiting loop ends, with the controller ready and the word in flight landed |
| SystemInit.Chip.WriteUicr | components/toolchain/system_nrf52.c:172 | a UICR assignment, allowed only while the controller is write-enabled and ready, starts the flash write of the machine |
| SystemInit.Chip.ReleaseNfcPins | components/toolchain/system_nrf52.c:170-176 | the block clears the protection bit and nothing else, and resets once |
| SystemInit.Chip.ConnectResetPin | components/toolchain/system_nrf52.c:186-194 | the block writes both PSELRESET words and nothing else, and resets once |
| SystemInit.Chip.SystemInit | components/toolchain/system_nrf52.c:168-198 | one call follows the machine and leaves UICR and resets as one boot should |
| SystemInit.Chip.PowerOn | components/toolchain/system_nrf52.c:168-198 | the boots after power-on terminate, after exactly one reset per unmet condition and with the final contents of UICR |
| SdkValidation.PairwiseIsGlobal | components/sdk_validation.h:109-257 | for any list of drivers and values, the pairwise conditions hold exactly when fewer than two macros are defined or the values sum to at most one |
| SdkValidation.ChecksArePairs | components/sdk_validation.h:109-257 | the fifteen checks on an instance are exactly the pairs of its six drivers |
| SdkValidation.AcceptedExactlyWhen | components/sdk_validation.h:107-274 | a configuration is accepted exactly when, if sharing is explicitly disabled, at most one driver is enabled on instance 0 and on instance 1, and SPI2 and SPIS2 are not both enabled |
| SdkValidation.SharingAllowsAll | components/sdk_validation.h:107 | every choice of drivers is accepted exactly when sharing is not explicitly disabled |
| SdkValidation.Instance2ExclusiveExactlyWhen | components/sdk_validation.h:259-272 | when an accepted configuration meets the exclusion that the messages for instance 2 promise |
| SdkValidation.Instance2NotExclusive | components/sdk_validation.h:269-272 | a concrete accepted configuration that does not meet it |
| SdkValidation.PassingMeansUniqueOwners | components/device/nrf52.h:1960-1971 | in an accepted configuration no two enabled drivers of instances 0 and 1 have the same base address, whichever macros are defined |
| SdkValidation.AcceptedMeansUniqueOwners | components/device/nrf52.h:1960-1971 | for switches, accepted means exactly that no register block of instances 0 and 1 has two owners, and the condition on instance 2 |
| AtomicFifo.TagComparisons | components/libraries/atomic_fifo/app_atfifo_internal.h:323-337 | the two positions of a tag are equal exactly when no put, or no get, is in progress |
| AtomicFifo.PutComparison | components/libraries/atomic_fifo/app_atfifo_internal.h:182-193 | what comparing a write position, loaded at any time before, with the released position of now says about the numbers of items |
| AtomicFifo.GetComparison | components/libraries/atomic_fifo/app_atfifo_internal.h:254-258 | the same for a read position and the visible items |
| AtomicFifo.StorePutKeeps | components/libraries/atomic_fifo/app_atfifo_internal.h:199-206 | a store that succeeds puts the item behind all others and keeps FIFO and queue coupled |
| AtomicFifo.StoreGetKeeps | components/libraries/atomic_fifo/app_atfifo_internal.h:273-279 | a store that succeeds takes the next item and keeps FIFO and queue coupled |
| AtomicFifo.RefusalKeeps | components/libraries/atomic_fifo/app_atfifo_internal.h:193-197 | a refused reservation leaves no trace |
| AtomicFifo.CopyPartlyKeeps | components/libraries/atomic_fifo/app_atfifo.c:89 | a partly copied item disturbs no other item |
| AtomicFifo.CopyInKeeps | components/libraries/atomic_fifo/app_atfifo.c:89 | a copied item is the one that the queue has |
| AtomicFifo.CommitKeeps | components/libraries/atomic_fifo/app_atfifo.c:110-118 | committing makes items visible exactly when no put is left in progress |
| AtomicFifo.SlotStable | components/libraries/atomic_fifo/app_atfifo.c:131 | while a get is in progress its slot holds its item all the time |
| AtomicFifo.FlushKeeps | components/libraries/atomic_fifo/app_atfifo.c:152-160 | flushing releases space exactly when no get is left in progress |
| AtomicFifo.ClearKeeps | components/libraries/atomic_fifo/app_atfifo_internal.h:310-348 | clearing skips the visible items, and releases their space if no get is in progress |
| AtomicFifo.StepAgrees | components/libraries/atomic_fifo/app_atfifo_internal.h:165-348 | every step reports the same as the queue, refusals and retries included, and keeps the coupling |
| AtomicFifo.FifoRefinesQueue | components/libraries/atomic_fifo/app_atfifo.h:62-96 | for every run, with transactions nested in any way and interrupted at any access, all calls report what the queue reports |
| AtomicFifo.BufferWithoutSlots | components/libraries/atomic_fifo/app_atfifo.c:51-69 | an empty buffer passes the initialization, and the first reservation is granted a slot outside it |
| FifoReports.WhenReported | components/libraries/atomic_fifo/app_atfifo.c:79-160 | which events report visibility, an item, a store or a restart, and that the item is the one of the get |
| FifoReports.CommitReports | components/libraries/atomic_fifo/app_atfifo.h:369-370 | in every run, a commit reports true exactly when its item is visible then, which is when all items are and no other put is in progress |
| FifoReports.FlushReports | components/libraries/atomic_fifo/app_atfifo.h:436-437 | in every run, a flush reports true exactly when the space of its item is released then, which is when all taken space is and no other get is in progress |
| FifoReports.ClearReports | components/libraries/atomic_fifo/app_atfifo_internal.h:318-345 | clearing reports success exactly when the FIFO is empty afterwards with nothing in progress |
| FifoReports.ClearReportsOfRun | components/libraries/atomic_fifo/app_atfifo.h:291-292 | in every run, that is when nothing ever put is left or being put and all space is released |
| FifoReservations.GrantedWithCause | components/libraries/atomic_fifo/app_atfifo_internal.h:204-209 | a reservation is granted only at an instant at which there is room, or an item to take, and takes effect then |
| FifoReservations.RefusedWithoutEffect | components/libraries/atomic_fifo/app_atfifo_internal.h:193-197 | only a comparison refuses, and a refusal changes nothing but to end the reservation |
| FifoReservations.PutRefusedExactly | components/libraries/atomic_fifo/app_atfifo_internal.h:180-197 | when a put is refused, when the queue is full then, when it is not, and that an undisturbed put is refused exactly when it is full |
| FifoReservations.GetRefusedExactly | components/libraries/atomic_fifo/app_atfifo_internal.h:252-262 | the same for a get and items to take |
| FifoReservations.PutDecided | components/libraries/atomic_fifo/app_atfifo_internal.h:179-210 | from any point of its reservation, retries included, an uninterrupted put is decided within five accesses; it is granted exactly when there is room and no old tag is mistaken |
| FifoReservations.GetDecided | components/libraries/atomic_fifo/app_atfifo_internal.h:251-283 | the same for a get and an item to take |
| FifoReservations.WholePut | components/libraries/atomic_fifo/app_atfifo.c:79-97 | an uninterrupted put, while no other is in progress and the queue is not full, appends its item and makes it visible |
| FifoReservations.WholeGet | components/libraries/atomic_fifo/app_atfifo.c:121-139 | an uninterrupted get, while no other is in progress and there is an item, takes it and releases its space |
| FifoReservations.PutRefusedWithoutCause | components/libraries/atomic_fifo/app_atfifo.h:313-314 | refusing a put although the FIFO has never been full is possible exactly with three or more slots |
| FifoReservations.GetRefusedWithoutCause | components/libraries/atomic_fifo/app_atfifo.h:386-387 | refusing a get although there has always been an item since before the load on which it is refused is possible exactly with three or more slots |
| FifoOrder.ExactlyOnce | components/libraries/atomic_fifo/app_atfifo.c:121-160 | in every run of the queue, every item taken has been delivered once, or is being read, or has been dropped by clearing, and never two of these |
| FifoOrder.ReadInOrder | components/libraries/atomic_fifo/app_atfifo.c:79-160 | when gets are not nested, the FIFO returns accepted items in the order in which they were accepted, also across clears |
| FifoOrder.ReadWithoutGap | components/libraries/atomic_fifo/app_atfifo.c:79-160 | when it is not cleared either, without gap or repetition |
| FifoOrder.DroppedHeld | components/libraries/atomic_fifo/app_atfifo_internal.h:310-348 | what a clear drops has been written completely and still is in its slots |
| FifoOrder.Conserved | components/libraries/atomic_fifo/app_atfifo.c:72-160 | at every point of every run, the items returned, those in slots being read and those dropped are together a permutation of the first accepted ones, and the slots from there to the write position hold all others, but for those being written |
| FifoOrder.NothingLost | components/libraries/atomic_fifo/app_atfifo.c:79-160 | when nothing is in progress and nothing was cleared, head and tail say so, the items read are a permutation of the first accepted ones and the buffer holds all others in order |
| FifoProtocol.RunNeverExposes | components/libraries/atomic_fifo/app_atfifo.h:88-96 | at no point of any run may a slot be read that is being written, or written that is being read |
| FifoProtocol.CommitExposesExactlyWhen | components/libraries/atomic_fifo/app_atfifo.h:93-100 | committing any put in progress exposes an unfinished slot exactly when it is the first in progress and another one is unfinished |
| FifoProtocol.FlushUnprotectsExactlyWhen | components/libraries/atomic_fifo/app_atfifo.h:93-100 | flushing any get in progress ends the protection of a slot still being read exactly when it is the first in progress and another one is unfinished |
| FifoProtocol.FlushExposesNextPutExactlyWhen | components/libraries/atomic_fifo/app_atfifo.h:93-100 | of these slots, the puts that follow directly may be given all but the one of the last item taken |
| FifoProtocol.FlushAndGetExposeExactlyWhen | components/libraries/atomic_fifo/app_atfifo.h:93-100 | after one more get, opened and closed in order, puts may be given a slot still being read exactly when the get flushed before was the first in progress and another one is unfinished |

## Left out

- The errata predicates and the register writes they guard (`system_nrf52.c:81-154`, `202-323`): each is settled by reading one branch.
- Trace, SWO and FPU setup and `SystemCoreClockUpdate`: no behaviour beyond the assignment.
- Chips with two GPIO ports: the LED macros address one port, and `nrf_gpio_pin_port_decode` has one case when there is one port.
- The DIR register, whose bits are the lowest bits of the PIN_CNF words; drive strength and sensing are those of `nrf_gpio_cfg_output` and `nrf_gpio_cfg_input` only.
- Timing and electrical behaviour, for example that an active-low LED may light up between its configuration as an output and the end of `bsp_board_leds_init`.
- SystemInit.Chip.PowerOn: covers runs without power failures; those with power failures are covered by the machine in `Boot`, since a method cannot be cut off between two statements.
- The presence and instance-count checks of `sdk_validation.h:52-104` and the NFC, TIMER4 and COMP checks of `276-298`: single conditions without interplay.
- Negative values of `..._ENABLED` macros.
- AtomicFifo.Step: positions count items instead of bytes, and the FIFO is a value, because interrupts come between its accesses; `app_atfifo_init` is represented by its successful outcome only, and the results on runs are about buffers with at least one slot (AtomicFifo.BufferWithoutSlots shows what happens without).
- FifoOrder.ExactlyOnce: is stated of the queue; FifoOrder.Conserved states it of the slots of the FIFO and of what its calls return.
- FifoOrder.NothingLost: is about runs without `app_atfifo_clear`; FifoOrder.Conserved covers the others.
- The BLE stack, the application and all other libraries.
