# Firmware of the DE2 CNC controller, modelled in Dafny

This project models the parts of the Nios II firmware, its board support package and the host component in which
interrupts, finite-width arithmetic and in-place buffers make correctness hard to see, and proves what they promise.
`dafny verify dfyconfig.toml` checks all of it.

How the pieces are laid out:

- `Base` holds bytes and options. `Rings` is the arithmetic of circular buffers that keep one slot empty.
- `JtagUart` is the interrupt-driven JTAG UART: two 2048-byte rings, enable bits and their shadow, the host alarm. The
  device is part of the state, with everything it ever sent and received. `Uart.Valid` says that both rings refine
  FIFOs and that no wakeup is lost.
- `UartTx` is the transmit half of the Avalon UART with CTS throttling.
- `Alarms` is the alarm list with 32-bit times and a rollover flag, against a clock that never wraps.
- `FileDescriptors` is the descriptor table with exclusive locks: a specification on values, the class that scans and
  updates the table, and the invariant over runs.
- `Sectors` says what writing a range does to a device of erase blocks; `SectorWalk` is the reasoning both flash drivers
  share. `CfiTable` reads the region table, `CfiFlash` is the parallel flash driver. `SerialFlash` is a serial flash chip
  (replies byte by byte, action when deselected, page wrap), `Spi` the credit loop that talks to it, `Epcs` the driver.
- `Dma` is the pair of descriptor rings for memory-to-memory transfers, with callbacks that post further requests.
- `Terminal` is the terminal as a function on screens; `Lcd` is the driver with its panel, shadow and scroll timer.
- `Printing` is the log printf with its format machine, the small printf with its shift-based `%x`, and their agreement.
- `TimeOfDay` is gettimeofday and settimeofday.
- `Nic` is the Ethernet controller's receive and transmit memory, `Cnc` the cycle protocol: host, board, whole runs.

Conventions. Code that changes state is a class with the source's fields and methods, proved against functions or
histories. A method of the foreground calls `Interrupts`, `Background` or `Ticks` wherever an interrupt may come; these
run any number of handler visits with any device answers, so a contract holds for every interleaving. Devices and the
outside choose nondeterministically. Loops that spin until a device or a handler acts are cut after a number of rounds
given as a parameter (`polls`) or bounded by a number of ticks still to come (`pending`); both are arbitrary, so contracts
speak of every finite prefix of every run. Histories (accepted, sent, popped, delivered, launched, called) are mostly
ghost fields.

Where the code does not keep its own documentation, the model follows the code and says exactly when the promise holds:

- a lock is granted although another descriptor refers to the device if that descriptor is the highest one ever
  allocated (`FileDescriptors.LockAsDocumented`); mutual exclusion holds all the same;
- the longest alarm delay fires at once unless the counter is about to wrap (`Alarms.StartedFiresOnTime`);
- the DMA driver spoils its queue exactly when an application call fills a slot that has been given to another request
  meanwhile, or stores an end of its ring that is not the one behind the queue, or does so with the ring full, or with
  another request in the slot (`Rings.StoreExact`, `Dma.Published`, `Dma.Channels.Send`, `Dma.Channels.Session`); only
  callbacks that post to the same channel between the call's first look at the ring and its last store can bring it
  there, and `Dma.PostInsideWindow` and `Dma.PostsAroundFill` are runs in which they do;
- the UART writes a byte without knowing that the transmitter is ready exactly when it has one, CTS allows it, and only a
  change of CTS is pending (`UartTx.Uart.Isr`); a key event between the two reads of the pendant's key register gives its state to the
  button before it (`Cnc.Board.PendantKey`);
- settimeofday multiplies in 32 bits, so a later reading is off unless the product wrapped a multiple of 15625 times
  (`TimeOfDay.ExactlyElapsed`), and with a tick rate below 10^6 that does not divide it the reading runs ahead, after one
  second by 10^6 minus the remainder in microseconds (`TimeOfDay.AfterOneSecond`);
- text of 63 columns or more never scrolls on the LCD, because the scroll range is stored in a signed char
  (`Lcd.LongTextStands`); clearing to the end of the line with the cursor behind the second row writes outside the
  screen, and only that does (`Terminal.LeavesExactly`, `Terminal.ClearingLeaves`); a write may end with the panel at
  another scroll position than the current one, exactly if ticks came before the last snapshot that are no whole rounds
  of a scroll and none came at the end (`Lcd.Display.PaintUntilStill`, `Lcd.StaleRun`); the column counter has eight
  bits, so the 257th character of a row overwrites its first (`Terminal.ColumnWraps`);
- a flash write that runs over the end of the device writes what fits and reports success (`SectorWalk.ReadsBack`);
- a block size entry of 0 in a region table means blocks of 128 bytes in section 3 of JESD68.01, but blocks of 0 bytes in
  the code: a table that is in order by the standard is refused exactly if it has such an entry
  (`CfiTable.StandardTableRead`).

## Model

| member | source | states |
|---|---|---|
| Rings.Occupied | DE2_NET/software/cnc_bsp/drivers/src/altera_avalon_jtag_uart_write.c:105-117 | occupancy of a ring that keeps one slot empty: 0 exactly when the indices meet, n - 1 exactly when the writer would catch the reader |
| Rings.RingAt | DE2_NET/software/cnc_bsp/drivers/src/altera_avalon_jtag_uart_init.c:174-184 | the k-th queued element sits k slots behind the read index |
| Rings.PushRun | DE2_NET/software/cnc_bsp/drivers/src/altera_avalon_jtag_uart_write.c:122-126 | advancing the write index over k filled free slots appends exactly their contents, for every wrap |
| Rings.PopRun | DE2_NET/software/cnc_bsp/drivers/src/altera_avalon_jtag_uart_read.c:136-140 | advancing the read index by a piece that does not wrap removes exactly the k oldest elements |
| Rings.StoreFree | DE2_NET/software/cnc_bsp/drivers/src/altera_avalon_jtag_uart_init.c:149-150 | storing into a slot outside the queue leaves the queued elements alone |
| Rings.StoreExact | DE2_NET/software/cnc_bsp/drivers/src/altera_avalon_dma.c:426-429 | a store leaves the queue alone if and only if the slot is not queued or holds that value already |
| Rings.NoAbaOut | DE2_NET/software/cnc_bsp/drivers/src/altera_avalon_jtag_uart_write.c:183-188 | with the write index fixed, the read index is where it was exactly when the occupancy is: nothing drained |
| Rings.NoAbaIn | DE2_NET/software/cnc_bsp/drivers/src/altera_avalon_jtag_uart_read.c:173-178 | with the read index fixed, the write index is where it was exactly when nothing arrived |
| JtagUart.Uart.constructor | DE2_NET/software/cnc_bsp/drivers/src/altera_avalon_jtag_uart_init.c:66-100 | the initial state satisfies the driver invariant: both rings refine FIFOs, enable bits mirror the shadow, no wakeup is lost |
| JtagUart.Uart.PopDevice | DE2_NET/software/cnc_bsp/drivers/src/altera_avalon_jtag_uart_init.c:144-153 | one byte popped from the device goes to the end of the receive ring, only when the ring has room; reports valid and more-available as the device said |
| JtagUart.Uart.SendOldest | DE2_NET/software/cnc_bsp/drivers/src/altera_avalon_jtag_uart_init.c:176-183 | the oldest queued byte goes to the data register; the ring loses exactly that byte |
| JtagUart.Uart.ReceiveIrq | DE2_NET/software/cnc_bsp/drivers/src/altera_avalon_jtag_uart_init.c:125-167 | for any device answers the read half keeps FIFO order and never pops a byte without room; RE is cleared only with the ring full |
| JtagUart.Uart.TransmitIrq | DE2_NET/software/cnc_bsp/drivers/src/altera_avalon_jtag_uart_init.c:169-195 | for any space count the write half sends exactly what fits, oldest first; WE is cleared exactly when there was room for more than the ring held |
| JtagUart.Uart.Visit | DE2_NET/software/cnc_bsp/drivers/src/altera_avalon_jtag_uart_init.c:117-195 | one turn of the handler: a pending read leaves the device empty, or the ring full with its interrupt off; a pending write sends exactly what fits; a source not pending changes nothing |
| JtagUart.Uart.Isr | DE2_NET/software/cnc_bsp/drivers/src/altera_avalon_jtag_uart_init.c:106-197 | for any first read of the control register its first round empties the device into the ring or fills the ring, and sends what fits, as far as the sources are pending; then any number of rounds keeps the invariant, loses no byte and only lets the histories grow |
| JtagUart.Uart.Timeout | DE2_NET/software/cnc_bsp/drivers/src/altera_avalon_jtag_uart_init.c:203-225 | the alarm sets the inactivity count to 0 when the host showed up and otherwise counts up to its limit, which counts as an absence; it writes the enables back unchanged and touches no ring |
| JtagUart.Uart.Interrupts | DE2_NET/software/cnc_bsp/drivers/src/altera_avalon_jtag_uart_init.c:106-225 | any number of interrupt visits, alarms and host arrivals keeps the invariant and leaves the foreground's indices alone |
| JtagUart.RoomAhead | DE2_NET/software/cnc_bsp/drivers/src/altera_avalon_jtag_uart_write.c:109-114 | the size of the next copy fits the free slots as a snapshot shows them and does not wrap; 0 exactly when the ring is full by that snapshot |
| JtagUart.RunAhead | DE2_NET/software/cnc_bsp/drivers/src/altera_avalon_jtag_uart_read.c:125-128 | the size of the next piece to take is within the queued bytes and does not wrap; 0 exactly when the ring is empty by that snapshot |
| JtagUart.Uart.CopyIn | DE2_NET/software/cnc_bsp/drivers/src/altera_avalon_jtag_uart_write.c:122-122 | copying into free slots with interrupts between any two bytes leaves the queue alone and the slots filled |
| JtagUart.Uart.PublishTx | DE2_NET/software/cnc_bsp/drivers/src/altera_avalon_jtag_uart_write.c:126-126 | publishing appends exactly the copied bytes to the accepted ones |
| JtagUart.Uart.Append | DE2_NET/software/cnc_bsp/drivers/src/altera_avalon_jtag_uart_write.c:119-126 | one pass: the next n bytes of the caller are accepted, in order |
| JtagUart.Uart.FillRing | DE2_NET/software/cnc_bsp/drivers/src/altera_avalon_jtag_uart_write.c:103-127 | the inner loop accepts a prefix of the data; it stops short only when that fills the ring as it was, however much was sent meanwhile, and then holds a true snapshot of the read index |
| JtagUart.Uart.EnableWrite | DE2_NET/software/cnc_bsp/drivers/src/altera_avalon_jtag_uart_write.c:136-139 | enabling closes the window in which a non-empty ring may have WE off |
| JtagUart.Uart.FillAndEnable | DE2_NET/software/cnc_bsp/drivers/src/altera_avalon_jtag_uart_write.c:103-139 | fill then enable: afterwards a non-empty transmit ring implies WE |
| JtagUart.Uart.AwaitDrain | DE2_NET/software/cnc_bsp/drivers/src/altera_avalon_jtag_uart_write.c:183-188 | while the writer spins, the read index equals the snapshot exactly when no byte was drained, for any number of interrupt visits |
| JtagUart.Uart.AwaitRoom | DE2_NET/software/cnc_bsp/drivers/src/altera_avalon_jtag_uart_write.c:183-197 | the wait at a full ring and the look behind it: the ring is full afterwards exactly if nothing was drained, and a wait that ends so has found the host gone |
| JtagUart.Uart.Write | DE2_NET/software/cnc_bsp/drivers/src/altera_avalon_jtag_uart_write.c:83-215 | for count > 0 a non-negative return is the number of bytes appended, in order; -EWOULDBLOCK and -EIO mean none; a non-blocking call comes back short only when the bytes it appended fill the ring as it was before, a blocking one only with the ring full and the host gone; a call still spinning has appended what it says and the ring was full |
| JtagUart.Uart.RxRingGrows | DE2_NET/software/cnc_bsp/drivers/src/altera_avalon_jtag_uart_init.c:132-154 | interrupts only append to the receive ring |
| JtagUart.Uart.CopyOut | DE2_NET/software/cnc_bsp/drivers/src/altera_avalon_jtag_uart_read.c:136-136 | copying out with interrupts between any two bytes yields the oldest bytes of the ring |
| JtagUart.Uart.PublishRx | DE2_NET/software/cnc_bsp/drivers/src/altera_avalon_jtag_uart_read.c:140-140 | releasing slots delivers exactly those bytes |
| JtagUart.Uart.Take | DE2_NET/software/cnc_bsp/drivers/src/altera_avalon_jtag_uart_read.c:133-140 | one pass: the next n received bytes are delivered to the caller's buffer |
| JtagUart.Uart.DrainRing | DE2_NET/software/cnc_bsp/drivers/src/altera_avalon_jtag_uart_read.c:120-142 | the inner loop delivers a prefix of what was received, all that was there if the caller has room; nothing delivered means the ring was empty at the snapshot |
| JtagUart.Uart.AwaitData | DE2_NET/software/cnc_bsp/drivers/src/altera_avalon_jtag_uart_read.c:173-178 | while the reader spins, the write index equals the snapshot exactly when no byte has arrived that was not delivered |
| JtagUart.Uart.Read | DE2_NET/software/cnc_bsp/drivers/src/altera_avalon_jtag_uart_read.c:100-203 | a non-negative return is the number of bytes delivered, the next ones received; errors deliver none; a call that returns with room left has taken all that was received before it, blocking or not, and a blocking one that returns nothing has an empty ring and the host gone; a call that spins has an empty ring and RE is on |
| JtagUart.Uart.Close | DE2_NET/software/cnc_bsp/drivers/src/altera_avalon_jtag_uart_init.c:241-254 | returns 0 only with the transmit ring empty or the host gone; non-blocking calls return -EWOULDBLOCK, and only with data queued and the host there |
| JtagUart.Session | DE2_NET/software/cnc_bsp/drivers/src/altera_avalon_jtag_uart_write.c:83-215 | any session of calls under any interrupts: bytes taken == bytes sent followed by bytes queued, and bytes handed over followed by bytes queued == bytes popped from the device |
| UartTx.Uart.SendOldest | DE2_NET/software/cnc_bsp/drivers/src/altera_avalon_uart_init.c:237-239 | the oldest queued byte goes to the data register and leaves the ring |
| UartTx.Uart.TransmitIrq | DE2_NET/software/cnc_bsp/drivers/src/altera_avalon_uart_init.c:206-283 | one byte is written to the data register exactly when there is one and flow control allows it; throttling starts exactly after two reads of CTS low, and then only DCTS is left on; both enables go off exactly when the ring is empty afterwards |
| UartTx.Uart.Isr | DE2_NET/software/cnc_bsp/drivers/src/altera_avalon_uart_init.c:107-144 | for any status: a byte is written exactly when a transmit source is pending and CTS allows it, and it is written without the transmitter being known ready exactly when that source is a change of CTS alone; without a source the transmit enables and throttling stay; the receive enable stays unless receive is pending |
| UartTx.Uart.Interrupts | DE2_NET/software/cnc_bsp/drivers/src/altera_avalon_uart_init.c:107-144 | any number of interrupts with any status keep the invariant and leave the writer's index alone |
| UartTx.Uart.EnableTransmit | DE2_NET/software/cnc_bsp/drivers/src/altera_avalon_uart_write.c:221-225 | both transmit interrupts are on afterwards |
| UartTx.Uart.Enqueue | DE2_NET/software/cnc_bsp/drivers/src/altera_avalon_uart_write.c:201-206 | one byte is queued behind the last |
| UartTx.Uart.AwaitRoom | DE2_NET/software/cnc_bsp/drivers/src/altera_avalon_uart_write.c:169-198 | a blocked writer goes on only with room, and while it waits a full ring has its interrupts on |
| UartTx.Uart.Write | DE2_NET/software/cnc_bsp/drivers/src/altera_avalon_uart_write.c:123-230 | the bytes counted as written are the ones queued, in order; a non-blocking call comes back short only when they fill the ring as it was; at rest a non-empty ring implies DCTS on and TRDY on unless flow control saw CTS low |
| UartTx.Uart.Close | DE2_NET/software/cnc_bsp/drivers/src/altera_avalon_uart_init.c:298-310 | close returns 0 only when everything queued has left, and an error only with bytes queued |
| UartTx.Session | DE2_NET/software/cnc_bsp/drivers/src/altera_avalon_uart_write.c:123-230 | any sequence of writes under any interrupts: bytes are written to the data register in the order the calls accepted them |
| Alarms.StartTracks | DE2_NET/software/cnc_bsp/HAL/src/alt_alarm_start.c:78-96 | the stored time and flag describe due tick now + n + 1 if and only if n is not 2^32 - 1 or the counter is about to wrap |
| Alarms.TickTracks | DE2_NET/software/cnc_bsp/HAL/src/alt_tick.c:96-139 | a tick fires exactly the alarm that is due, keeps track of any other, and re-arming by r > 0 is due exactly r ticks later |
| Alarms.FiresWhenDue | DE2_NET/software/cnc_bsp/HAL/src/alt_tick.c:100-141 | a tracked alarm is silent up to its due tick and fires there, across any number of 32-bit wraps |
| Alarms.StartedFiresOnTime | DE2_NET/software/cnc_bsp/HAL/src/alt_alarm_start.c:64-112 | an alarm started n ticks ahead first fires at now + n + 1 if and only if n < 2^32 - 1 or the counter is about to wrap |
| Alarms.LongestDelayFiresAtOnce | DE2_NET/software/cnc_bsp/HAL/src/alt_alarm_start.c:82-92 | the failing input: delay 2^32 - 1 at reset fires at the first tick |
| Alarms.FiresOnSchedule | DE2_NET/software/cnc_bsp/HAL/src/alt_tick.c:117-138 | the unbounded clock fires an alarm that nobody starts or stops exactly on its schedule, without drift, whatever happens to the others |
| Alarms.StartedOrStopped | DE2_NET/software/cnc_bsp/HAL/src/alt_alarm_start.c:64-112 | an alarm started and then left alone fires on the schedule of its start; one that is stopped never fires |
| Alarms.FiredJoin | DE2_NET/software/cnc_bsp/HAL/src/alt_tick.c:87-148 | a run fires an alarm as its first part does and then as the rest does from the due times and the tick at which that ended |
| Alarms.StartedInRun | DE2_NET/software/cnc_bsp/HAL/src/alt_alarm_start.c:64-112 | an alarm started anywhere in a run and then left alone fires as before and then on the schedule of that start; stopped, it fires no more |
| Alarms.WalkCalls | DE2_NET/software/cnc_bsp/HAL/src/alt_tick.c:100-141 | the list walk calls back exactly the alarms due now, in list order |
| Alarms.WalkTracks | DE2_NET/software/cnc_bsp/HAL/src/alt_tick.c:100-141 | what the walk keeps of the first k entries is each remaining alarm once, with its new due time |
| Alarms.TickLists | DE2_NET/software/cnc_bsp/HAL/src/alt_tick.c:87-148 | a tick keeps the list in step with an unbounded clock |
| Alarms.Clock.Start | DE2_NET/software/cnc_bsp/HAL/src/alt_alarm_start.c:64-112 | stores the due time and flag of now + n + 1 at the head of the list, or returns -ENOTSUP or -EINVAL and changes nothing; the list stays in step with the unbounded clock if and only if n is not 2^32 - 1 or the counter is about to wrap |
| Alarms.Clock.Stop | DE2_NET/software/cnc_bsp/HAL/src/alt_tick.c:66-73 | removes exactly that alarm; harmless for one that is not registered |
| Alarms.Clock.Visit | DE2_NET/software/cnc_bsp/HAL/src/alt_tick.c:109-139 | flag, test, callback and re-arming of one entry |
| Alarms.Clock.Walk | DE2_NET/software/cnc_bsp/HAL/src/alt_tick.c:100-141 | the in-place walk computes the specified list and calls, although it unlinks entries while it goes |
| Alarms.Clock.Tick | DE2_NET/software/cnc_bsp/HAL/src/alt_tick.c:87-148 | one tick calls exactly the due alarms; the registered alarms become those of the unbounded clock |
| Alarms.DueNowExact | DE2_NET/software/cnc_bsp/HAL/src/alt_tick.c:115-117 | an alarm is called at a tick if and only if it is registered and due |
| Alarms.CalledIffDue | DE2_NET/software/cnc_bsp/HAL/src/alt_tick.c:115-117 | the alarms called are those the unbounded clock holds due |
| Alarms.TickInStep | DE2_NET/software/cnc_bsp/HAL/src/alt_tick.c:87-148 | what was called so far and what the unbounded clock has yet to fire make up all its firings |
| Alarms.RunComplete | DE2_NET/software/cnc_bsp/HAL/src/alt_tick.c:87-148 | a log of a whole run is, for every alarm, what the unbounded clock fires, and for one left alone its schedule |
| Alarms.Run | DE2_NET/software/cnc_bsp/HAL/src/alt_tick.c:87-148 | any run of starts, stops and ticks, across wraps: the calls are tick by tick those of the unbounded clock, and an alarm that is left alone is called exactly on its schedule |
| FileDescriptors.OpenKeeps | DE2_NET/software/cnc_bsp/HAL/src/alt_open.c:105-171 | open keeps the invariant that any other descriptor on a locked device lies above the holder |
| FileDescriptors.LockKeeps | DE2_NET/software/cnc_bsp/HAL/src/alt_fd_lock.c:54-75 | so does granting a lock, although the scan stops one slot early |
| FileDescriptors.RedirectKeeps | DE2_NET/software/cnc_bsp/HAL/src/alt_io_redirect.c:58-72 | so does copying a fresh descriptor over a standard one and releasing it |
| FileDescriptors.StepKeeps | DE2_NET/software/cnc_bsp/HAL/src/alt_fd_lock.c:54-75 | every call keeps the invariant |
| FileDescriptors.OpenOfFreeDevice | DE2_NET/software/cnc_bsp/HAL/src/alt_open.c:143-170 | a successful open found no lock on the device |
| FileDescriptors.LockedDeviceRefused | DE2_NET/software/cnc_bsp/HAL/src/alt_open.c:79-87 | no open of a locked device succeeds, and a refused one leaves every descriptor as it was |
| FileDescriptors.OpenGranted | DE2_NET/software/cnc_bsp/HAL/src/alt_open.c:118-170 | an open is granted exactly when the name is known, a descriptor is free, a device is not locked and the driver agrees |
| FileDescriptors.OpenSlots | DE2_NET/software/cnc_bsp/HAL/src/alt_open.c:118-170 | what an open does, slot by slot: the lowest free slot refers to the device with the flags and no lock, all others stay; a refused one changes no slot; granted exactly if the name is known, the driver willing, a slot free and the device not locked |
| FileDescriptors.RunKeeps | DE2_NET/software/cnc_bsp/HAL/src/alt_ioctl.c:106-168 | every table a run of legal calls reaches satisfies the invariant |
| FileDescriptors.ExclusionHolds | DE2_NET/software/cnc_bsp/HAL/src/alt_fd_lock.c:54-75 | over all runs of open, close, lock, unlock and redirect: one holder per device at most, and opening a locked device fails |
| FileDescriptors.ClosingUnlocks | DE2_NET/software/cnc_bsp/HAL/src/alt_close.c:84-94 | over all runs: after the holder of a lock is closed, whatever its driver returns, an open of that device with a willing driver is granted, unless the holder is a standard descriptor |
| FileDescriptors.LockAsDocumented | DE2_NET/software/cnc_bsp/HAL/src/alt_fd_lock.c:61-69 | the documented rule (grant if and only if no other descriptor refers to the device) holds exactly unless the only other such descriptor is the highest ever allocated |
| FileDescriptors.SharedDeviceLocked | DE2_NET/software/cnc_bsp/HAL/src/alt_fd_lock.c:61-69 | the failing run: open a device twice, lock the first descriptor, and the lock is granted |
| FileDescriptors.FirstFreeIs | DE2_NET/software/cnc_bsp/HAL/src/alt_get_fd.c:77-89 | the slot found is free and every lower one is taken |
| FileDescriptors.FdTable.GetFd | DE2_NET/software/cnc_bsp/HAL/src/alt_get_fd.c:54-101 | takes the lowest free slot and raises the high-water mark, or returns -EMFILE |
| FileDescriptors.FdTable.ReleaseFd | DE2_NET/software/cnc_bsp/HAL/src/alt_release_fd.c:45-51 | clears a slot above 2 and nothing else |
| FileDescriptors.FdTable.FileLocked | DE2_NET/software/cnc_bsp/HAL/src/alt_open.c:64-92 | -EACCES exactly if another descriptor holds the device's lock |
| FileDescriptors.FdTable.Open | DE2_NET/software/cnc_bsp/HAL/src/alt_open.c:105-171 | the table and result of the specification, errno included; slot by slot: the lowest free one is taken or none changes, and exactly when it is granted |
| FileDescriptors.FdTable.Close | DE2_NET/software/cnc_bsp/HAL/src/alt_close.c:64-101 | whatever the driver's close returns, the slot of a descriptor above 2 is free afterwards, every other slot and the high-water mark stay; 0 exactly for a descriptor whose driver did not fail, otherwise -1 with EBADFD or the negated driver result in errno |
| FileDescriptors.FdTable.FdLock | DE2_NET/software/cnc_bsp/HAL/src/alt_fd_lock.c:54-75 | grants the lock exactly if no other scanned slot refers to the device |
| FileDescriptors.FdTable.FdUnlock | DE2_NET/software/cnc_bsp/HAL/src/alt_fd_unlock.c:52-56 | clears only the lock bit |
| FileDescriptors.FdTable.Ioctl | DE2_NET/software/cnc_bsp/HAL/src/alt_ioctl.c:106-168 | a lock is granted unless a descriptor below the highest one ever allocated refers to the device too, and sets only that lock bit; unlock clears it; everything else is the driver's ioctl and changes no slot; errno is the negated result |
| FileDescriptors.FdTable.OpenFd | DE2_NET/software/cnc_bsp/HAL/src/alt_io_redirect.c:58-72 | a successful open is copied over the standard descriptor and released; a failed one changes no descriptor |
| Sectors.AtTiles | DE2_NET/software/cnc_bsp/drivers/src/altera_avalon_cfi_flash_table.c:402-406 | in a table that tiles the device every region starts at the sum of the blocks before it, and the last ends at the device size |
| Sectors.AtMonotone | DE2_NET/software/cnc_bsp/drivers/src/altera_avalon_cfi_flash.c:107-158 | block addresses grow along the walk |
| Sectors.NewBlock | DE2_NET/software/cnc_bsp/drivers/src/altera_avalon_cfi_flash.c:126-144 | a block keeps its length whatever is written |
| Sectors.WrittenMisses | DE2_NET/software/cnc_bsp/drivers/src/altera_avalon_cfi_flash.c:107-158 | blocks the range misses keep their contents |
| Sectors.WrittenBlock | DE2_NET/software/cnc_bsp/drivers/src/altera_avalon_cfi_flash.c:107-158 | each block of the result is what its old contents become on their own |
| Sectors.WrittenReads | DE2_NET/software/cnc_bsp/drivers/src/altera_avalon_cfi_flash.c:107-158 | in the result the range is the source; every other byte is as before or erased |
| Sectors.BlockReads | DE2_NET/software/cnc_bsp/drivers/src/altera_avalon_cfi_flash.c:126-144 | the same for a single block |
| Sectors.WrittenTwice | DE2_NET/software/cnc_bsp/drivers/src/altera_avalon_cfi_flash.c:126-130 | writing what is already there changes nothing |
| Sectors.BlockMatches | DE2_NET/software/cnc_bsp/drivers/src/altera_avalon_cfi_flash.c:129-131 | a block that holds its part of the source is left alone |
| Sectors.AndOnes | DE2_NET/software/cnc_bsp/drivers/src/altera_avalon_cfi_flash_intel.c:201-219 | programming over erased cells is exact, and programming a byte over itself changes nothing |
| SectorWalk.SkipRegion | DE2_NET/software/cnc_bsp/drivers/src/altera_avalon_cfi_flash.c:110-112 | a region the range does not start in is passed over unchanged |
| SectorWalk.SkipBlock | DE2_NET/software/cnc_bsp/drivers/src/altera_avalon_cfi_flash.c:118-120 | so is a block |
| SectorWalk.NextRegion | DE2_NET/software/cnc_bsp/drivers/src/altera_avalon_cfi_flash.c:107-159 | the walk goes on at the start of the next region |
| SectorWalk.ChunkIsPart | DE2_NET/software/cnc_bsp/drivers/src/altera_avalon_cfi_flash.c:126-128 | the bytes handed to one visit are exactly the source's part of that block |
| SectorWalk.BlockWritten | DE2_NET/software/cnc_bsp/drivers/src/altera_avalon_cfi_flash.c:129-144 | after a visit all blocks up to and with this one are final and the rest is untouched |
| SectorWalk.BlockFailed | DE2_NET/software/cnc_bsp/drivers/src/altera_avalon_cfi_flash.c:146-150 | after a failed visit all blocks before it are final and those behind it untouched |
| SectorWalk.WriteEnds | DE2_NET/software/cnc_bsp/drivers/src/altera_avalon_cfi_flash.c:146-150 | when the length is used up every block is final |
| SectorWalk.ProgressEnd | DE2_NET/software/cnc_bsp/drivers/src/altera_avalon_cfi_flash.c:107-159 | when the walk runs off the device every block is final too |
| SectorWalk.ReadsBack | DE2_NET/software/cnc_bsp/drivers/src/altera_avalon_cfi_flash.c:93-164 | after success the range reads back as the source as far as the device goes, other bytes are as before or erased, and a write behind the end changes nothing although it reports success |
| SectorWalk.KeepsBlock | DE2_NET/software/cnc_bsp/drivers/src/altera_avalon_cfi_flash.c:129-131 | a block outside the range, or equal to its part of the source, is not changed |
| CfiFlash.Flash.EraseBlock | DE2_NET/software/cnc_bsp/drivers/src/altera_avalon_cfi_flash_intel.c:90-135 | the erase step of the device: the block is blank on success, its neighbours are untouched in any case; it fails exactly if the device does |
| CfiFlash.Flash.ProgramWord | DE2_NET/software/cnc_bsp/drivers/src/altera_avalon_cfi_flash_intel.c:196-219 | the program step: one aligned word is ANDed in on success, everything else is untouched in any case; it fails exactly if the device does |
| CfiFlash.Flash.ProgramPart | DE2_NET/software/cnc_bsp/drivers/src/altera_avalon_cfi_flash.c:277-331 | a word that repeats its surroundings sets only the erased bytes between them |
| CfiFlash.Flash.Gather | DE2_NET/software/cnc_bsp/drivers/src/altera_avalon_cfi_flash.c:285-293 | the word buffer is filled from two runs byte by byte |
| CfiFlash.Flash.ProgramHead | DE2_NET/software/cnc_bsp/drivers/src/altera_avalon_cfi_flash.c:277-302 | the partial word in front: exactly the source bytes change, bytes before them are preserved |
| CfiFlash.Flash.ProgramWords | DE2_NET/software/cnc_bsp/drivers/src/altera_avalon_cfi_flash.c:304-309 | the whole words: aligned addresses only, exactly the source bytes change |
| CfiFlash.Flash.ProgramTail | DE2_NET/software/cnc_bsp/drivers/src/altera_avalon_cfi_flash.c:315-331 | the partial word at the end: bytes behind it are preserved |
| CfiFlash.Flash.ProgramBlock | DE2_NET/software/cnc_bsp/drivers/src/altera_avalon_cfi_flash.c:261-334 | an unaligned range over erased cells ends up as the source and nothing else in the device changes; a failure stays inside the block |
| CfiFlash.Flash.EraseIntel | DE2_NET/software/cnc_bsp/drivers/src/altera_avalon_cfi_flash_intel.c:90-135 | unlock, then erase |
| CfiFlash.Flash.ProgramIntel | DE2_NET/software/cnc_bsp/drivers/src/altera_avalon_cfi_flash_intel.c:63-83 | unlock, then program |
| CfiFlash.Flash.WriteOneBlock | DE2_NET/software/cnc_bsp/drivers/src/altera_avalon_cfi_flash.c:126-144 | compare, and only if different erase and program |
| CfiFlash.Flash.Block | DE2_NET/software/cnc_bsp/drivers/src/altera_avalon_cfi_flash.c:116-156 | one block of the walk: goes on, or stops with everything final, or stops at the block that failed |
| CfiFlash.Flash.Read | DE2_NET/software/cnc_bsp/drivers/src/altera_avalon_cfi_flash.c:199-205 | copies exactly the range into the caller's buffer and leaves the rest of the buffer alone |
| CfiFlash.Flash.Write | DE2_NET/software/cnc_bsp/drivers/src/altera_avalon_cfi_flash.c:93-164 | success leaves every block as the specification says; failure leaves all earlier blocks final and all later ones untouched; a negative offset writes nothing; it fails exactly if a step of the device has failed |
| CfiFlash.Flash.WriteThenRead | DE2_NET/software/cnc_bsp/drivers/src/altera_avalon_cfi_flash.c:93-205 | what is read after a successful in-range write is the source; bytes outside the range keep their value or are blank |
| CfiFlash.Fits | DE2_NET/software/cnc_bsp/drivers/src/altera_avalon_cfi_flash.c:277-305 | how any range that reaches its next word boundary splits into a partial word, aligned words and a partial word inside the block |
| CfiTable.Described | DE2_NET/software/cnc_bsp/drivers/src/altera_avalon_cfi_flash_table.c:352-361 | what the code computes: a region is as long as its blocks together, and block sizes are multiples of 256 |
| CfiTable.Standard | DE2_NET/software/cnc_bsp/drivers/src/altera_avalon_cfi_flash_table.c:352-361 | the standard's reading of the same entries agrees with the code's exactly if the block size entry is not 0, and is larger otherwise |
| CfiTable.TotalFallsShort | DE2_NET/software/cnc_bsp/drivers/src/altera_avalon_cfi_flash_table.c:350-363 | over any number of regions the code's total is the standard's exactly if no block size entry is 0, and smaller otherwise |
| CfiTable.StandardTableRead | DE2_NET/software/cnc_bsp/drivers/src/altera_avalon_cfi_flash_table.c:308-368 | a table that is in order by the standard, with at most eight regions and a known algorithm, is read exactly if no block size entry is 0; otherwise the result is -ENODEV |
| CfiTable.TinyDeviceRefused | DE2_NET/software/cnc_bsp/drivers/src/altera_avalon_cfi_flash_table.c:352-368 | such a device: one block of 128 bytes |
| CfiTable.TotalBackwards | DE2_NET/software/cnc_bsp/drivers/src/altera_avalon_cfi_flash_table.c:379-400 | reversing the regions does not change how much they cover |
| CfiTable.FlipNext | DE2_NET/software/cnc_bsp/drivers/src/altera_avalon_cfi_flash_table.c:381-399 | one turn of the swap loop exchanges the next outermost pair |
| CfiTable.FlipAll | DE2_NET/software/cnc_bsp/drivers/src/altera_avalon_cfi_flash_table.c:381-399 | the finished swap loop has reversed the table |
| CfiTable.LaidOutTiles | DE2_NET/software/cnc_bsp/drivers/src/altera_avalon_cfi_flash_table.c:402-406 | regions laid end to end from 0 tile their total without gaps |
| CfiTable.Table.Fill | DE2_NET/software/cnc_bsp/drivers/src/altera_avalon_cfi_flash_table.c:350-363 | the table holds the descriptions in order and the running sum is their total |
| CfiTable.Table.Reverse | DE2_NET/software/cnc_bsp/drivers/src/altera_avalon_cfi_flash_table.c:379-400 | the in-place swaps reverse all three fields together |
| CfiTable.Table.Place | DE2_NET/software/cnc_bsp/drivers/src/altera_avalon_cfi_flash_table.c:402-406 | each offset is the sum of the sizes before it |
| CfiTable.RawRegions | DE2_NET/software/cnc_bsp/drivers/src/altera_avalon_cfi_flash_table.c:352-361 | the regions read are those in the query bytes, in figures, the last first exactly for algorithm 2 with boot mode 3 |
| CfiTable.PowerAdd | DE2_NET/software/cnc_bsp/drivers/src/altera_avalon_cfi_flash_table.c:340-340 | the device size of n is two to the n |
| CfiTable.Table.Read | DE2_NET/software/cnc_bsp/drivers/src/altera_avalon_cfi_flash_table.c:289-433 | the result code for every query table, byte by byte: -ENODEV without the letters PRI, -EIO for an algorithm other than 1 to 3, -ENOMEM standing for more than eight regions, -ENODEV for a wrong total; on success the regions are those in the query bytes, tile the device and are in address order, also for top-boot parts |
| CfiTable.Open | DE2_NET/software/cnc_bsp/drivers/src/altera_avalon_cfi_flash.c:55-77 | a device whose table was read is one the write walk accepts |
| Spi.Bus.Command | DE2_NET/software/cnc_bsp/drivers/src/altera_avalon_spi.c:41-132 | for any status timing exactly the write data and then zeros are sent, the data returned are the replies behind the first write_length, the chip stays selected exactly on merge; before every turn credits are 0 or 1 with sent minus received equal to 1 minus credits, and at the end all is sent and received; the -1024 branch is unreachable |
| Spi.NextClocked | DE2_NET/software/cnc_bsp/drivers/src/altera_avalon_spi.c:93-99 | the k-th byte on the bus is the k-th of the data followed by zeros |
| SerialFlash.LoadedFits | DE2_NET/software/cnc_bsp/drivers/src/epcs_commands.c:215-240 | a page load that does not pass the end of the page lies where it was addressed |
| SerialFlash.LoadedWraps | DE2_NET/software/cnc_bsp/drivers/src/altera_avalon_epcs_flash_controller.c:426-437 | one that does comes back at the start of the page: what the splitter avoids |
| SerialFlash.ProgrammedFits | DE2_NET/software/cnc_bsp/drivers/src/epcs_commands.c:215-240 | programming erased cells inside one page writes them and nothing else |
| SerialFlash.NeedsEnable | DE2_NET/software/cnc_bsp/drivers/src/epcs_commands.c:65-108 | the memory changes only under a command of the right length to an enabled chip at rest, which is disabled again by it; a busy chip ignores everything |
| SerialFlash.AnswerCodes | DE2_NET/software/cnc_bsp/drivers/src/epcs_commands.c:35-50 | 0x05 is answered with the status, 0x03 with memory, 0xAB with the signature, 0x9F with the identification |
| SerialFlash.ChangeCodes | DE2_NET/software/cnc_bsp/drivers/src/epcs_commands.c:65-108 | 0xD8 with an address erases there, 0x02 with an address and data programs them |
| Epcs.AddressSent | DE2_NET/software/cnc_bsp/drivers/src/epcs_commands.c:72-93 | the address is sent as three or four bytes, highest first, and decodes to the offset |
| Epcs.Compare | DE2_NET/software/cnc_bsp/drivers/src/altera_avalon_epcs_flash_controller.c:228-232 | zero exactly for equal chunks |
| Epcs.CompareDecides | DE2_NET/software/cnc_bsp/drivers/src/altera_avalon_epcs_flash_controller.c:228-232 | the first different byte decides which chunk is less |
| Epcs.Unsigned | DE2_NET/software/cnc_bsp/drivers/src/altera_avalon_epcs_flash_controller.c:371-375 | a negative offset compares above every device address |
| Epcs.NextPage | DE2_NET/software/cnc_bsp/drivers/src/altera_avalon_epcs_flash_controller.c:429-430 | the next page boundary is behind the offset and at most a page away |
| Epcs.Known | DE2_NET/software/cnc_bsp/drivers/src/altera_avalon_epcs_flash_controller.c:107-171 | every part in the table is as long as its blocks together, and needs four address bytes exactly if longer than 16 MB |
| Epcs.DensityCodes | DE2_NET/software/cnc_bsp/drivers/src/altera_avalon_epcs_flash_controller.c:107-171 | the sizes in the table are powers of two with the density code as exponent, one more for the older signatures |
| Epcs.Driver.WriteEnable | DE2_NET/software/cnc_bsp/drivers/src/epcs_commands.c:155-167 | the write enable latch is set |
| Epcs.Driver.EnterFourBytes | DE2_NET/software/cnc_bsp/drivers/src/epcs_commands.c:293-311 | the chip takes four address bytes; the latch is used up |
| Epcs.Driver.ExitFourBytes | DE2_NET/software/cnc_bsp/drivers/src/epcs_commands.c:313-331 | the chip takes three again |
| Epcs.Driver.ReadStatus | DE2_NET/software/cnc_bsp/drivers/src/epcs_commands.c:35-50 | returns the status register |
| Epcs.Driver.AwaitReady | DE2_NET/software/cnc_bsp/drivers/src/epcs_commands.c:57-63 | polls until the chip is no longer busy, for any busy time, and terminates |
| Epcs.Driver.SectorErase | DE2_NET/software/cnc_bsp/drivers/src/epcs_commands.c:65-108 | exactly the addressed sector becomes blank, in three- and four-byte mode |
| Epcs.Driver.ReadBuffer | DE2_NET/software/cnc_bsp/drivers/src/epcs_commands.c:110-153 | the bytes at the offset, wrapping at the end of the chip as the source documents |
| Epcs.Driver.WriteBuffer | DE2_NET/software/cnc_bsp/drivers/src/epcs_commands.c:190-254 | the two merged commands make one page program transaction with all the data |
| Epcs.Driver.TestAddress | DE2_NET/software/cnc_bsp/drivers/src/altera_avalon_epcs_flash_controller.c:356-376 | -EIO exactly for offsets outside the device, negative ones included |
| Epcs.Driver.EraseBlock | DE2_NET/software/cnc_bsp/drivers/src/altera_avalon_epcs_flash_controller.c:384-399 | erases the sector or returns -EIO and does nothing |
| Epcs.Driver.WriteBlock | DE2_NET/software/cnc_bsp/drivers/src/altera_avalon_epcs_flash_controller.c:409-440 | over erased cells the range becomes the data and nothing else changes; no page is crossed |
| Epcs.Driver.WritePage | DE2_NET/software/cnc_bsp/drivers/src/altera_avalon_epcs_flash_controller.c:429-437 | each piece extends the part that is written |
| Epcs.Driver.Read | DE2_NET/software/cnc_bsp/drivers/src/altera_avalon_epcs_flash_controller.c:447-470 | reads the range, -EIO for a start outside the device |
| Epcs.Driver.MemCompare | DE2_NET/software/cnc_bsp/drivers/src/altera_avalon_epcs_flash_controller.c:190-241 | zero exactly when the range equals the source, though compared in 32-byte chunks; -1 when it starts outside |
| Epcs.ChunkDecides | DE2_NET/software/cnc_bsp/drivers/src/altera_avalon_epcs_flash_controller.c:205-240 | once earlier chunks are equal, this chunk decides |
| Epcs.Driver.WriteOneBlock | DE2_NET/software/cnc_bsp/drivers/src/altera_avalon_epcs_flash_controller.c:290-305 | compare, and only if different erase and program |
| Epcs.Driver.Block | DE2_NET/software/cnc_bsp/drivers/src/altera_avalon_epcs_flash_controller.c:280-317 | one block of the walk |
| Epcs.Driver.Write | DE2_NET/software/cnc_bsp/drivers/src/altera_avalon_epcs_flash_controller.c:256-322 | a write always succeeds on a known part and leaves every block as the specification says |
| Epcs.Driver.WriteThenRead | DE2_NET/software/cnc_bsp/drivers/src/altera_avalon_epcs_flash_controller.c:256-470 | an in-range write reads back as the source |
| Epcs.Driver.Query | DE2_NET/software/cnc_bsp/drivers/src/altera_avalon_epcs_flash_controller.c:80-188 | finds the geometry of exactly the known parts, each in figures, -ENODEV otherwise; four address bytes exactly for density 0x19; a known chip is then one the walk accepts |
| Epcs.Identifies | DE2_NET/software/cnc_bsp/drivers/src/epcs_commands.c:257-291 | the answers to the two identification commands, which change nothing on the chip |
| Dma.TxOnceInOrder | DE2_NET/software/cnc_bsp/drivers/src/altera_avalon_dma.c:499-512 | every non-null transmit callback is made exactly once and in order, however receive callbacks fall between |
| Dma.CallsNext | DE2_NET/software/cnc_bsp/drivers/src/altera_avalon_dma.c:499-512 | each completed pair adds its transmit callback, then its receive callback |
| Dma.EachCalled | DE2_NET/software/cnc_bsp/drivers/src/altera_avalon_dma.c:499-512 | the callbacks of every completed pair are made with its own handle and buffer |
| Dma.CalledInOrder | DE2_NET/software/cnc_bsp/drivers/src/altera_avalon_dma.c:499-512 | if every send has a callback the k-th transmit callback is that of the k-th send, and there are no others |
| Dma.PairedExactly | DE2_NET/software/cnc_bsp/drivers/src/altera_avalon_dma.c:44-66 | a transfer is from the send's address to the receive's, as long as one of the two and no longer than either |
| Dma.Published | DE2_NET/software/cnc_bsp/drivers/src/altera_avalon_dma.c:426-430 | storing the end behind a slot makes a queue with one more request if and only if that slot is the free one behind the queue, holds the request, and the ring has room |
| Dma.Channels.Launch | DE2_NET/software/cnc_bsp/drivers/src/altera_avalon_dma.c:44-66 | starts the oldest send with the oldest prepare exactly when both rings hold one: from the one's address to the other's, as long as one of the two and no longer than either |
| Dma.Channels.Callback | DE2_NET/software/cnc_bsp/drivers/src/altera_avalon_dma.c:499-512 | a callback that posts anything to either channel keeps the invariant and never overwrites the slots of the pair just completed |
| Dma.Channels.Irq | DE2_NET/software/cnc_bsp/drivers/src/altera_avalon_dma.c:446-513 | one completion: both rings release one slot, the next pair starts, the callbacks of exactly this pair are made |
| Dma.Channels.Retire | DE2_NET/software/cnc_bsp/drivers/src/altera_avalon_dma.c:464-487 | the released slots still hold the completed requests |
| Dma.Channels.NotifyTx | DE2_NET/software/cnc_bsp/drivers/src/altera_avalon_dma.c:499-505 | the transmit callback reads its own slot and leaves the completed receive slot alone |
| Dma.Channels.NotifyRx | DE2_NET/software/cnc_bsp/drivers/src/altera_avalon_dma.c:506-512 | the receive callback is made with the data of the completed request |
| Dma.Channels.Background | DE2_NET/software/cnc_bsp/drivers/src/altera_avalon_dma.c:446-513 | any number of completions, with callbacks posting to both channels, keep the invariant at any point of a foreground call |
| Dma.Channels.ReadTx | DE2_NET/software/cnc_bsp/drivers/src/altera_avalon_dma.c:414-422 | the ring looks full to a call exactly when it was full as its start was read, counting later posts; without posts a ring that does not look full is not |
| Dma.Channels.StoreTx | DE2_NET/software/cnc_bsp/drivers/src/altera_avalon_dma.c:426-429 | a store into a slot leaves the queue what was accepted if and only if the slot is not queued or holds that value already |
| Dma.Channels.FillTx | DE2_NET/software/cnc_bsp/drivers/src/altera_avalon_dma.c:426-429 | one field of the slot, with completions and posts in front of it: without posts the slot gets the field and the queue is left alone |
| Dma.Channels.ReserveTx | DE2_NET/software/cnc_bsp/drivers/src/altera_avalon_dma.c:414-428 | between reading the end and storing the new one, with completions and posts around every field: the end is where it was exactly after whole rounds of posts; the queue is what was accepted unless a field changed a queued request |
| Dma.Channels.PublishTx | DE2_NET/software/cnc_bsp/drivers/src/altera_avalon_dma.c:430-430 | storing the end makes the queue one that holds the request too exactly if the slot is the free one behind the queue, the ring has room and the slot holds the request |
| Dma.Channels.Send | DE2_NET/software/cnc_bsp/drivers/src/altera_avalon_dma.c:385-439 | -EINVAL exactly for bad alignment or length, -ENOSPC exactly if the ring was full when its start was read, counting what callbacks posted before its end was read; otherwise the queue holds what was accepted if and only if the fill changed no queued request, the end stored is the one behind the queue, there is room, and the slot holds the request, in particular if no callback posted between the first read and the store; completions and posts may come between any two accesses |
| Dma.Channels.Prepare | DE2_NET/software/cnc_bsp/drivers/src/altera_avalon_dma.c:294-346 | the same for receive requests |
| Dma.Channels.AcceptTx | DE2_NET/software/cnc_bsp/drivers/src/altera_avalon_dma.c:414-436 | fill, publish, start if idle: right if and only if the fill changed no queued request, the end is still the one behind the queue, there is room and the slot holds the request; completions anywhere and posts behind the store are harmless |
| Dma.Channels.Join | DE2_NET/software/cnc_bsp/drivers/src/altera_avalon_dma.c:432-435 | the gap between the store and the look at active is harmless, with completions and posts to both channels in it |
| Dma.Channels.AcceptRx | DE2_NET/software/cnc_bsp/drivers/src/altera_avalon_dma.c:328-343 | the same for receive requests |
| Dma.Channels.Space | DE2_NET/software/cnc_bsp/drivers/src/altera_avalon_dma.c:355-369 | 3 minus the number of requests queued |
| Dma.Channels.Session | DE2_NET/software/cnc_bsp/drivers/src/altera_avalon_dma.c:385-513 | over all runs up to the first call that leaves a queue wrong: the k-th transfer is from the k-th send's address to the k-th prepare's, no longer than either and as long as one of them, active at rest exactly if both rings hold a request, all callbacks of completed pairs made; no call does so if no callback posts to its channel between its first read of the ring and its store, and one that does leaves a queue that is not what was accepted |
| Dma.PostInsideWindow | DE2_NET/software/cnc_bsp/drivers/src/altera_avalon_dma.c:414-430 | a run that goes wrong: a callback's post inside that window is accepted, overwritten and lost, for any four requests |
| Dma.PostsAroundFill | DE2_NET/software/cnc_bsp/drivers/src/altera_avalon_dma.c:414-430 | a run that goes wrong although the right end is stored: the fill changes a queued request, and later posts and completions take the ring once round; the foreground's request is transferred in its place and queued again |
| Terminal.Put | DE2_NET/software/cnc_bsp/drivers/src/altera_avalon_lcd_16207.c:372-431 | a character keeps the cursor within row 2, the column within a byte and the spare column blank |
| Terminal.PutJoin | DE2_NET/software/cnc_bsp/drivers/src/altera_avalon_lcd_16207.c:365-432 | texts written one after the other are their concatenation |
| Terminal.StaysInside | DE2_NET/software/cnc_bsp/drivers/src/altera_avalon_lcd_16207.c:330-343 | text without a K stays inside the screen |
| Terminal.PutLeaves | DE2_NET/software/cnc_bsp/drivers/src/altera_avalon_lcd_16207.c:330-343 | a character leaves the screen if and only if it is a K that ends an escape sequence without a parameter above 0 while the cursor is behind the second row and inside the columns |
| Terminal.LeavesExactly | DE2_NET/software/cnc_bsp/drivers/src/altera_avalon_lcd_16207.c:365-432 | a text leaves the screen if and only if some prefix of it reaches a screen on which the next character is such a K |
| Terminal.ClearingLeaves | DE2_NET/software/cnc_bsp/drivers/src/altera_avalon_lcd_16207.c:330-343 | a text that does: two line feeds and ESC K after a reset |
| Terminal.TextAppears | DE2_NET/software/cnc_bsp/drivers/src/altera_avalon_lcd_16207.c:417-430 | printable text up to column 80 appears where the cursor is and moves it behind |
| Terminal.CursorMoves | DE2_NET/software/cnc_bsp/drivers/src/altera_avalon_lcd_16207.c:286-319 | ESC [ row ; column H moves the cursor there and changes no text up to row 3; row 4 moves the text up by one, rows 5 to 9 clear it |
| Terminal.TextReplaces | DE2_NET/software/cnc_bsp/drivers/src/altera_avalon_lcd_16207.c:418-430 | printable text replaces what was in its columns and nothing else; behind column 80 it is lost |
| Terminal.TextScrolls | DE2_NET/software/cnc_bsp/drivers/src/altera_avalon_lcd_16207.c:418-430 | with the cursor behind the second row the first character moves that row up and starts a blank one |
| Terminal.LineFeed | DE2_NET/software/cnc_bsp/drivers/src/altera_avalon_lcd_16207.c:402-412 | a line feed goes to the start of the next row and moves the rows up only from behind the second |
| Terminal.LastTwoLines | DE2_NET/software/cnc_bsp/drivers/src/altera_avalon_lcd_16207.c:365-432 | of any number of lines, empty ones and ones longer than a row among them, written to an empty screen the last two are shown, and the cursor waits behind them |
| Terminal.Overtypes | DE2_NET/software/cnc_bsp/drivers/src/altera_avalon_lcd_16207.c:398-401 | after a carriage return text is written over the beginning of the row |
| Terminal.Backspaces | DE2_NET/software/cnc_bsp/drivers/src/altera_avalon_lcd_16207.c:413-417 | n backspaces go n columns back, to the first at most, and change no text |
| Terminal.Ignored | DE2_NET/software/cnc_bsp/drivers/src/altera_avalon_lcd_16207.c:394-431 | all other control characters and bytes above 126 are ignored |
| Terminal.ClearsToEnd | DE2_NET/software/cnc_bsp/drivers/src/altera_avalon_lcd_16207.c:332-344 | ESC K and ESC [ K blank the row from the cursor on and leave the cursor; behind column 80 they do nothing |
| Terminal.ClearsScreen | DE2_NET/software/cnc_bsp/drivers/src/altera_avalon_lcd_16207.c:322-330 | ESC [ 2 J blanks both rows and goes to the first column of the first |
| Terminal.ColumnWraps | DE2_NET/software/cnc_bsp/drivers/src/altera_avalon_lcd_16207.c:425-429 | the column counter has eight bits: the 257th character of a row overwrites the first |
| Lcd.MovedRound | DE2_NET/software/cnc_bsp/drivers/src/altera_avalon_lcd_16207.c:531-540 | the scroll position comes back exactly after whole rounds of ticks |
| Lcd.PaintedCurrent | DE2_NET/software/cnc_bsp/drivers/src/altera_avalon_lcd_16207.c:494-511 | a round of painting after which the position is the old one was painted at it if and only if the display does not scroll or whole rounds of ticks, mostly none, came before the snapshot |
| Lcd.OffsetInside | DE2_NET/software/cnc_bsp/drivers/src/altera_avalon_lcd_16207.c:241-243 | the offset of a scrolling line stays inside the line for every position |
| Lcd.ScrollCourse | DE2_NET/software/cnc_bsp/drivers/src/altera_avalon_lcd_16207.c:241-263 | over one scroll the offset of a line is the position times its speed in whole columns: it starts at 0, never steps back, moves at most one column a tick and ends at the line's last column, for lines of any width at the same tick |
| Lcd.ScrollsAt | DE2_NET/software/cnc_bsp/drivers/src/altera_avalon_lcd_16207.c:456-486 | in figures: the range is twice the widest line, 0 if all fit and less 256 from 64 columns on; a line that does not fit moves by 256 * width / (2 * widest) of a 256th column a tick |
| Lcd.LongTextStands | DE2_NET/software/cnc_bsp/drivers/src/altera_avalon_lcd_16207.c:456-461 | the scroll range stored in a signed char is positive exactly for widths below 64: longer text does not scroll |
| Lcd.Display.constructor | DE2_NET/software/cnc_bsp/drivers/src/altera_avalon_lcd_16207.c:553-605 | the eight commands of the initialisation reach a working panel in order; afterwards shadow and panel agree, no timer can repaint a line of width 0, and the panel counts as broken exactly if it was busy a million times in a row |
| Lcd.Display.ClearScreen | DE2_NET/software/cnc_bsp/drivers/src/altera_avalon_lcd_16207.c:207-223 | panel, shadow, text and cursor are cleared together |
| Lcd.Display.AwaitIdle | DE2_NET/software/cnc_bsp/drivers/src/altera_avalon_lcd_16207.c:137-162 | the wait ends with a panel that is not busy, or gives it up after exactly a million busy answers in a row |
| Lcd.Display.WriteCommand | DE2_NET/software/cnc_bsp/drivers/src/altera_avalon_lcd_16207.c:137-167 | a command reaches a working panel, and only after the panel has said that it is not busy; the panel is given up for good exactly when it has answered a million status reads in a row with busy |
| Lcd.Display.WriteData | DE2_NET/software/cnc_bsp/drivers/src/altera_avalon_lcd_16207.c:171-203 | a data write, behind the same wait, puts the character at the address and advances both counters |
| Lcd.Display.PaintCell | DE2_NET/software/cnc_bsp/drivers/src/altera_avalon_lcd_16207.c:247-262 | sending only a changed cell keeps shadow and panel equal and the address the controller's own |
| Lcd.Display.PaintLine | DE2_NET/software/cnc_bsp/drivers/src/altera_avalon_lcd_16207.c:238-263 | all 16 cells of a line show what belongs there at the position read |
| Lcd.Display.Repaint | DE2_NET/software/cnc_bsp/drivers/src/altera_avalon_lcd_16207.c:227-265 | both lines are painted at one scroll position, whatever ticks come meanwhile; no width is 0 |
| Lcd.Display.ScrollUp | DE2_NET/software/cnc_bsp/drivers/src/altera_avalon_lcd_16207.c:269-282 | the text moves up a line |
| Lcd.Display.ReadParameters | DE2_NET/software/cnc_bsp/drivers/src/altera_avalon_lcd_16207.c:288-303 | the parameters of the sequence; the scan stops inside the buffer |
| Lcd.Display.HandleEscape | DE2_NET/software/cnc_bsp/drivers/src/altera_avalon_lcd_16207.c:286-345 | does to the driver state what the terminal specification says, and reports the one case that leaves the screen |
| Lcd.Display.MoveCursor | DE2_NET/software/cnc_bsp/drivers/src/altera_avalon_lcd_16207.c:307-319 | cursor addressing, scrolling rows behind the last |
| Lcd.Display.PutChar | DE2_NET/software/cnc_bsp/drivers/src/altera_avalon_lcd_16207.c:365-432 | one character does to the state what it does to the terminal |
| Lcd.Display.PutText | DE2_NET/software/cnc_bsp/drivers/src/altera_avalon_lcd_16207.c:365-432 | so does a whole text, with ticks between any two characters |
| Lcd.Display.TextWidth | DE2_NET/software/cnc_bsp/drivers/src/altera_avalon_lcd_16207.c:436-450 | all text is inside the width, and a line that scrolls ends in one blank |
| Lcd.Display.Measure | DE2_NET/software/cnc_bsp/drivers/src/altera_avalon_lcd_16207.c:433-488 | widths, speeds and scroll range are recalculated, text and shadow are untouched |
| Lcd.Display.PaintUntilStill | DE2_NET/software/cnc_bsp/drivers/src/altera_avalon_lcd_16207.c:494-511 | painting ends at the current position if and only if the display does not scroll, a tick came after active was cleared, or whole rounds of ticks came before the last snapshot; it terminates if ticks are finite |
| Lcd.Display.Round | DE2_NET/software/cnc_bsp/drivers/src/altera_avalon_lcd_16207.c:494-506 | the same for one round, with ticks before the snapshot, while painting and at rest |
| Lcd.Display.StaleRound | DE2_NET/software/cnc_bsp/drivers/src/altera_avalon_lcd_16207.c:494-506 | from every scrolling state: a tick before the snapshot and the rest of a scroll behind it end the loop at the position before the one painted |
| Lcd.Display.Write | DE2_NET/software/cnc_bsp/drivers/src/altera_avalon_lcd_16207.c:349-520 | the text is put on the terminal and painted at one scroll position, in every interleaving with the timer; this is the current position exactly under the condition of PaintUntilStill |
| Lcd.Display.Timeout | DE2_NET/software/cnc_bsp/drivers/src/altera_avalon_lcd_16207.c:531-546 | every tick moves the position; it repaints at the new position exactly when the display scrolls and no write is active, and otherwise the panel is untouched |
| Lcd.Display.CellsShown | DE2_NET/software/cnc_bsp/drivers/src/altera_avalon_lcd_16207.c:227-265 | all 32 cells of a working panel, in literals: column x shows data[(x + o) % width] with o = position * speed / 256, or 0 if that is outside the line |
| Lcd.Display.Session | DE2_NET/software/cnc_bsp/drivers/src/altera_avalon_lcd_16207.c:349-546 | any texts written one after the other, with ticks in them and between them: the terminal holds all of them unless one leaves the screen, and the 32 cells show its rows at the painted position, with speeds and range in figures, unless the panel was busy a million times in a row |
| Lcd.ScrollRun | DE2_NET/software/cnc_bsp/drivers/src/altera_avalon_lcd_16207.c:227-265 | a run from power-up: seventeen letters, two ticks, and a working panel shows B to Q |
| Lcd.StaleRun | DE2_NET/software/cnc_bsp/drivers/src/altera_avalon_lcd_16207.c:349-520 | a run from power-up with 17 characters that leaves the panel at position 1 while the scroll is at 0 |
| Printing.DigitsRead | DE2_NET/software/cnc_bsp/HAL/src/alt_log_printf.c:247-255 | the digits of a number, read back, are the number, and bound it by the next power |
| Printing.DigitsUnique | DE2_NET/software/cnc_bsp/HAL/src/alt_log_printf.c:281-297 | digit strings of one style, length and value are equal: the two algorithms must print the same |
| Printing.DigitsLength | DE2_NET/software/cnc_bsp/HAL/src/alt_printf.c:96-99 | a number between two powers of the base has that many digits |
| Printing.Field | DE2_NET/software/cnc_bsp/HAL/src/alt_log_printf.c:257-279 | the field is as long as the larger of the width and the number |
| Printing.FieldReadsBack | DE2_NET/software/cnc_bsp/HAL/src/alt_log_printf.c:206-297 | for every 32-bit value, base 8, 10 or 16, sign, zero flag and width the output reads back as the value |
| Printing.ParseRun | DE2_NET/software/cnc_bsp/HAL/src/alt_log_printf.c:262-268 | zeros between sign and digits do not change the value |
| Printing.ParseBlanks | DE2_NET/software/cnc_bsp/HAL/src/alt_log_printf.c:269-278 | nor do blanks in front |
| Printing.RepeatChar | DE2_NET/software/cnc_bsp/HAL/src/alt_log_printf.c:106-110 | a non-positive count prints nothing |
| Printing.PlaceValue | DE2_NET/software/cnc_bsp/HAL/src/alt_log_printf.c:247-255 | the digit count and the largest place value, which never exceeds the value |
| Printing.DivideStep | DE2_NET/software/cnc_bsp/HAL/src/alt_log_printf.c:282-296 | what one division and remainder by the place value leave |
| Printing.PrintDigits | DE2_NET/software/cnc_bsp/HAL/src/alt_log_printf.c:281-297 | dividing down from the largest place value prints exactly the digits |
| Printing.PrintInteger | DE2_NET/software/cnc_bsp/HAL/src/alt_log_printf.c:206-297 | sign, padding and digits in the order of the field |
| Printing.PrintHex | DE2_NET/software/cnc_bsp/HAL/src/alt_printf.c:82-111 | shifting nibbles out prints the same string as the unpadded %x of the other algorithm |
| Printing.LowerNibble | DE2_NET/software/cnc_bsp/HAL/src/alt_printf.c:97-99 | an empty leading nibble can be skipped, and one of the eight is not empty |
| Printing.NextNibble | DE2_NET/software/cnc_bsp/HAL/src/alt_printf.c:102-110 | the nibbles printed so far are the value without the lower ones |
| Printing.OneChar | DE2_NET/software/cnc_bsp/HAL/src/alt_log_printf.c:128-195 | one turn of the format machine prints what reading the format from left to right prints |
| Printing.LogPrintf | DE2_NET/software/cnc_bsp/HAL/src/alt_log_printf.c:114-342 | for every format and arguments the state machine prints the rendering of the format |
| Printing.LettersRead | DE2_NET/software/cnc_bsp/HAL/src/alt_log_printf.c:131-338 | letter by letter, for every flag, width, precision and length: %d and %i print the number between -2^31 and 2^31 that the word stands for, %u, %o, %x and %X the word itself, in base 10, 8, 16 and 16 |
| Printing.HexLetters | DE2_NET/software/cnc_bsp/HAL/src/alt_log_printf.c:282-296 | %x prints its letters small, %X large |
| Printing.WidthFills | DE2_NET/software/cnc_bsp/HAL/src/alt_log_printf.c:257-279 | told by what the letter prints without width: blanks in front, with the zero flag zeros behind the sign, as many as are missing; longer numbers are not cut |
| Printing.OthersPrint | DE2_NET/software/cnc_bsp/HAL/src/alt_log_printf.c:319-334 | %c prints the low byte and %s the string, with blanks in front up to the width |
| Printing.PieceByPiece | DE2_NET/software/cnc_bsp/HAL/src/alt_log_printf.c:128-342 | directive after directive: eight letters take an argument, any other prints nothing and takes none |
| Printing.TextPrints | DE2_NET/software/cnc_bsp/HAL/src/alt_log_printf.c:128-165 | two percent signs print one, and text prints itself |
| Printing.WidthIsNumber | DE2_NET/software/cnc_bsp/HAL/src/alt_log_printf.c:167-185 | the width is the number before the point; what follows the point and the length letter do not change it |
| Printing.PrintedLiterally | DE2_NET/software/cnc_bsp/HAL/src/alt_log_printf.c:131-338 | 47 is printed 47, 57, 2f and 2F, and the word of -7 is printed -7 |
| Printing.ReadModifiers | DE2_NET/software/cnc_bsp/HAL/src/alt_log_printf.c:171-185 | digits, points and length letters in front of the letter are read as the width that the digits before the point spell |
| Printing.DirectivePrints | DE2_NET/software/cnc_bsp/HAL/src/alt_log_printf.c:131-297 | every directive for an integer, with or without flag, width, precision and length, prints the field they ask for |
| Printing.WidthWritten | DE2_NET/software/cnc_bsp/HAL/src/alt_log_printf.c:171-181 | a number written in front of the letter is read as itself, and no number as no width |
| Printing.DirectiveReadsBack | DE2_NET/software/cnc_bsp/HAL/src/alt_log_printf.c:114-342 | what every such directive prints reads back as the argument, and is as long as the width or the number, whichever is longer |
| Printing.FirstNotZero | DE2_NET/software/cnc_bsp/HAL/src/alt_log_printf.c:155-159 | a positive width does not begin with the zero flag |
| Printing.AltPrintf | DE2_NET/software/cnc_bsp/HAL/src/alt_printf.c:45-121 | for every format and arguments the loop prints the rendering of the format |
| Printing.PrintfsAgree | DE2_NET/software/cnc_bsp/HAL/src/alt_printf.c:82-111 | the dividing and the shifting printf print the same for every format without flags, widths and integers other than %x |
| Printing.BothPrintfs | DE2_NET/software/cnc_bsp/HAL/src/alt_printf.c:45-121 | so both, run on such a format with the same arguments, return the same string |
| TimeOfDay.WallClock.Set | DE2_NET/software/cnc_bsp/HAL/src/alt_settod.c:72-96 | stores the offset in wrapping 32-bit arithmetic; without a clock -1 and ENOSYS |
| TimeOfDay.WallClock.Get | DE2_NET/software/cnc_bsp/HAL/src/alt_gettod.c:71-124 | the normalised sum with a 64-bit product; without a clock -ENOTSUP |
| TimeOfDay.WallClock.SetThenGet | DE2_NET/software/cnc_bsp/HAL/src/alt_gettod.c:71-124 | setting the time and reading it later returns exactly the time set plus the ticks, if and only if the product of the set did not slip or the clamp hides it |
| TimeOfDay.WallClock.Normalise | DE2_NET/software/cnc_bsp/HAL/src/alt_gettod.c:95-112 | both loops end and give the normalised time, clamped only when negative |
| TimeOfDay.Normal | DE2_NET/software/cnc_bsp/HAL/src/alt_gettod.c:95-112 | a normalised time is the same instant unless it was negative, then 0 |
| TimeOfDay.WholeSeconds | DE2_NET/software/cnc_bsp/HAL/src/alt_gettod.c:91-93 | with a dividing rate the quotient and the remainder of the tick product make up the ticks exactly |
| TimeOfDay.ReadAfterSet | DE2_NET/software/cnc_bsp/HAL/src/alt_settod.c:82-84 | the exact reading after a set: elapsed ticks without rounding, plus the slip of the 32-bit product, not below 0 |
| TimeOfDay.NoSlip | DE2_NET/software/cnc_bsp/HAL/src/alt_settod.c:83-84 | the slip is zero exactly when the product wrapped a multiple of 15625 times |
| TimeOfDay.ExactlyElapsed | DE2_NET/software/cnc_bsp/HAL/src/alt_gettod.c:91-112 | reading d ticks after setting t gives t plus d ticks if and only if the product did not slip, in particular when it fits 32 bits, or the clamp hides a slip backwards of a zero time |
| TimeOfDay.SlipAfterWrap | DE2_NET/software/cnc_bsp/HAL/src/alt_settod.c:83-84 | the failing input: 1000 ticks a second, set after 4294968 ticks |
| TimeOfDay.AfterOneSecond | DE2_NET/software/cnc_bsp/HAL/src/alt_gettod.c:91-93 | what every rate reads after one second of ticks: a rate below 10^6 that does not divide it is ahead by 10^6 minus the remainder |
| TimeOfDay.RateMustDivide | DE2_NET/software/cnc_bsp/HAL/src/alt_gettod.c:91-93 | the reading after one second of ticks is exact if and only if the rate divides 10^6 or is above it |
| Nic.Dm9000.ReceivePacket | DE2_NET/software/cnc/DM9000A.C:142-229 | a ready controller gives up exactly one frame (status, length, ceil(length/2) words); a good one lands in the buffer, two bytes a word and low byte first, a bad one changes nothing, a controller out of order is reset |
| Nic.FitsEveryGoodFrame | DE2_NET/software/cnc/DM9000A.C:170-178 | a buffer takes every frame the check lets through if and only if it has 1522 bytes |
| Nic.GoodStatus | DE2_NET/software/cnc/DM9000A.C:171-171 | a frame is good exactly if it has fewer than 1522 bytes and no bit of 0xBF00 is set in its status |
| Nic.Dm9000.ReadData | DE2_NET/software/cnc/DM9000A.C:170-178 | the words of a good frame are its bytes, low byte first |
| Nic.Dm9000.SkipData | DE2_NET/software/cnc/DM9000A.C:183-187 | a bad frame is skipped whole |
| Nic.DataWordsAre | DE2_NET/software/cnc/DM9000A.C:160-187 | a word of receive memory is an even byte and 256 times the next |
| Nic.Dm9000.TransmitPacket | DE2_NET/software/cnc/DM9000A.C:101-139 | the words written are two bytes each, low byte first, the packet on the wire is the buffer byte for byte, and the receive interrupt is on again |
| Cnc.BytesOfWord | DE2_NET/software/cnc/hello_led.c:80-83 | a word cut into four bytes is the same word when put together |
| Cnc.BitsFound | DE2_Driver_HAL_component/de2.c:534-538 | packed bits are found where they were put, and none above them |
| Cnc.PutWord | DE2_Driver_HAL_component/de2.c:472-475 | four bytes hold the word, all others are as before |
| Cnc.SetBitBits | DE2_NET/software/cnc/hello_led.c:172-183 | clearing and setting one bit leaves the others |
| Cnc.Board.PendantKey | DE2_NET/software/cnc/hello_led.c:167-185 | the button of the first read of the key register gets the state of the second, all other bits stay |
| Cnc.Board.FillReply | DE2_NET/software/cnc/hello_led.c:70-121 | the answer carries the eight values read, one after the other while the inputs move, and the pendant |
| Cnc.Board.Apply | DE2_NET/software/cnc/hello_led.c:128-137 | the nine command registers are written in order with the words of the request |
| Cnc.Board.EthernetInterrupt | DE2_NET/software/cnc/hello_led.c:54-142 | a request, 0x80 0xAB behind the addresses, is answered 0x08 0xAB with the values read, all of them before the first command register is written, and applied; any other header is answered 0x08 0xAA and touches no register; the interrupt is on again |
| Cnc.LastAgree | DE2_NET/software/cnc/hello_led.c:54-142 | if the newest good frame is a request it is the newest request |
| Cnc.StaysCurrent | DE2_NET/software/cnc/hello_led.c:54-142 | a reception that leaves the buffer alone or a new good frame in it keeps the registers those of the newest request |
| Cnc.MemoryAppend | DE2_NET/software/cnc/DM9000A.C:160-187 | frames that arrive lie behind those in receive memory |
| Cnc.Visit | DE2_NET/software/cnc/hello_led.c:54-142 | one interrupt keeps the board up to date, whatever became of the frame |
| Cnc.Reset | DE2_NET/software/cnc/hello_led.c:54-142 | an interrupt that finds the chip out of order loses what it held and keeps the registers those of the newest request |
| Cnc.Run | DE2_NET/software/cnc/hello_led.c:54-142 | over any run of good and bad frames and resets of a chip out of order the registers are those of the newest request processed |
| Cnc.Counted | DE2_Driver_HAL_component/de2.c:570-571 | the wrapped difference stored in an int is the counter minus 2^31 exactly |
| Cnc.Host.Send | DE2_Driver_HAL_component/de2.c:472-545 | the frame means the command: periods, directions and enables, PWM words and pins in their registers |
| Cnc.RegisterBytes | DE2_Driver_HAL_component/de2.c:472-545 | register k is in bytes 14 + 4k to 17 + 4k of a frame, the lowest first |
| Cnc.InFigures | DE2_Driver_HAL_component/de2.c:472-545 | registers 0 to 4 are the periods, 5 the directions from bit 0 and the enables from bit 5, 6 and 7 the PWM words, and the bits of 8 the pins |
| Cnc.Host.PutFlags | DE2_Driver_HAL_component/de2.c:508-510 | the direction and enable bits |
| Cnc.Host.Pack | DE2_Driver_HAL_component/de2.c:534-539 | the pin loop packs the pins |
| Cnc.Host.Receive | DE2_Driver_HAL_component/de2.c:547-597 | nothing received or a wrong header changes no pin and no position; a valid answer is shown exactly |
| Cnc.Cycle | DE2_Driver_HAL_component/de2.c:372-597 | a whole cycle: the board has the periods, directions, enables, PWM words and pins commanded in their registers, the host shows the values read before the first of them was written, each counter without its offset |
| Cnc.FlagsArrive | DE2_Driver_HAL_component/de2.c:508-510 | bits 0 to 4 of register 5 are the directions, bits 5 to 9 the enables |
| Cnc.PinsArrive | DE2_Driver_HAL_component/de2.c:534-543 | the bits of register 8 are the output pins |
| Cnc.InputBits | DE2_NET/software/cnc/hello_led.c:70-78 | pins 0 to 15 are the board's inputs, pins 16 to 31 the pendant's |

## Left out

- JtagUart.Uart.Write: a call that is still spinning after `polls` rounds reports how far it is; that the host or a timeout ends the wait is up to the outside.
- JtagUart.Uart.Read: the same for a reader that waits for data.
- JtagUart.Uart.Close: the same for a close that waits for the ring to drain.
- UartTx.Uart.Write: the same for a writer that waits for room; the uC/OS event flag on which it may sleep is not modelled.
- UartTx.Uart.Isr: the receive half changes only its enable bit here. The receive ring of this driver stores without a full check, so that it does not overflow is not an invariant.
- Alarms.Clock.Start: an alarm that is registered is not started again; the list of the HAL would run into itself.
- Alarms.Run: no alarm is started with the longest delay unless the counter is about to wrap; what such a start does is in `Alarms.Clock.Start`.
- Alarms.Clock.Tick: a callback is an answer; callbacks that start or stop other alarms are not modelled. The linked list of the HAL is a sequence.
- FileDescriptors.FdTable.Open: what a name resolves to and what a driver's own open returns are parameters; so are the results of a driver's close and ioctl.
- CfiFlash.Flash.EraseBlock: status polling, timeouts and command bytes are one step that succeeds or fails; the same for programming a word and unlocking a block.
- CfiFlash.Flash.Write: asks that an unaligned range reaches its next word boundary, because the code reads source bytes behind a shorter one; the base address is aligned.
- CfiTable.Table.Read: the described sizes must fit an int, as the code assumes. With more than eight regions the code goes on to index outside its table; the model returns the code and stops there. The timeouts read from the table are not modelled.
- CfiTable.Open: bus width probing is not modelled; the width is a parameter. Of the two command sets only the Intel one is modelled, since the file with the AMD one is not part of this model.
- Spi.Bus.Command: the flag that toggles chip select per byte, and the final wait for the shift register, are not modelled. No byte is in flight when a command starts.
- Epcs.Driver.Query: block protection and the status register write are not modelled.
- Dma.Channels.Session: a run is left where a queue has stopped being what was accepted.
- Dma.Channels.Send: a call that spoils the queue is left at the store that does so, before it returns.
- Dma.Channels.Launch: streaming modes and the ioctl that selects them are not modelled; the transfer width is the fixed alignment mask.
- Lcd.Display.Write: the semaphore and the returned length are not modelled.
- Lcd.Display.WriteCommand: the pause of 100 microseconds after the wait is not modelled.
- Printing.LogPrintf: field widths do not overflow an int; an argument is a word and a string at once, so reading it as the wrong kind is not an error here; the output device is the result string.
- TimeOfDay.WallClock.Get: seconds that overflow an int while microseconds are carried are not modelled; the theorems ask for times that fit.
- Nic.Dm9000.ReceivePacket: a good frame must fit the buffer, which `Nic.FitsEveryGoodFrame` says takes 1522 bytes; the board has 512. PHY access and initialisation are not modelled.
- Nic.Dm9000.TransmitPacket: the length fits the two byte registers it is written to; the code would send a longer packet cut short.
- Cnc.Run: good frames have at least 50 bytes, so that a request is complete, and at most 512; the registers after a shorter request are those of the buffer, as the interrupt handler's own contract says.
- Cnc.Host.Send: velocities, scales and PWM duty are computed in floating point; the resulting words are given.
- Cnc.Host.Receive: positions are the counters before they are divided by the scale.
- Cnc.Board.PendantKey: the pendant's lamp output, the seven-segment display and the LEDs are not modelled.
- The uC/OS-II branches, the small drivers, the direct-driver build and the option that ignores a full FIFO.
- Raw sockets, sysctl, HAL pins, sleeps, cache flushing, inline assembly, exception entry and the syscall stubs.
- The USB, audio and LCD demo files and the Verilog design.
