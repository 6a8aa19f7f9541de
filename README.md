# MAX1187x touch controller driver: protocol core in Dafny

This project models the protocol core of the MAX1187x touchscreen driver
(`drivers/input/touchscreen/max1187x.c`) and proves properties of it:

- **Command framing** (`send_mtp_command`): a command is cut into packets of
  at most 9 words. Each packet goes out as `[0x0000, header, payload…]`.
- **Report packet read** (`read_mtp_report`): the header check, the
  `is_raw_mode` latch, and the windowed second read of raw mode.
- **Multi-packet reassembly** (`combine_multipacketreport`): its sequence-byte
  state machine, with the static `packet_seq_combined` counter as state.
- **Report distribution hub** (`propagate_report`, `get_report`,
  `release_report`): the five-slot reader table,
  `report_readers_outstanding` and the `report_sem` gate.
- **Command/report correlator** (`process_rbcmd`, `cmd_send`,
  `rbcmd_send_receive`, `read_chip_data`).
- **Bootloader register protocol** (`bootloader_*`): status and data register
  handshakes, magic sequences, CRC, erase and flash commands.
- **Firmware update** (`device_fw_load`) and the firmware-table lookup of
  `validate_fw`.
- **Touch-path helpers**: `max1187x_sqrt`, the pressure clamp, the
  reversed-axis arithmetic, `validate_pdata`, and the finger-id bookkeeping
  of `process_report`, `report_down`, `report_up` and
  `invalidate_all_fingers`.

The I2C bus is a value `Transport.Wire` and an object `Transport.Bus`
wrapping it:

- a log of every frame sent;
- a scripted sequence of transmit counts;
- a scripted sequence of receive results (a count plus data).

Every operation that only talks to the bus has two forms:

- a pure function over `Wire`, in modules `BootloaderSpec`, `Framing`,
  `PacketRead` and `FirmwareSpec`;
- an imperative method over the `Bus` object, in modules `Bootloader`,
  `Framing` and `Firmware`. Its `ensures` states that the result and the new
  bus state are exactly those of the function.

The properties are lemmas about the functions.

The driver's own state (`struct data`) is the class `Driver.Controller`:

- arrays `rx_packet`, `rx_report`, `rbcmd_rx_report` and `cmd_buf`;
- the reader table;
- counters, flags and semaphore counts;
- finger-id sets;
- an abstract log of input events.

Each of its methods is proved to leave the state that a pure function of
the old state gives:

- `Reassembly.Combine`;
- `Correlator.ProcessRbcmd`;
- `Readers.Propagate`, `Readers.Register`, `Readers.Complete` and
  `Readers.Release`;
- `Exchange.SendReceive` and `Exchange.ReadChipData`;
- `Fingers.ProcessReport`.

The lemmas about those functions carry the driver's promises.

The u16 finger-id masks are sets of ids. Semaphores are counts. A `down` on
a semaphore requires the count to be positive, since the driver would
block otherwise. The results of `down_interruptible`, `down_timeout` and the
rbcmd wait are inputs.

## Model

| member | source | states |
|---|---|---|
| Words.ByteH | drivers/input/touchscreen/max1187x.c:43 | BYTEH gives the byte b with b*256 <= w < (b+1)*256 |
| Words.ByteL | drivers/input/touchscreen/max1187x.c:44 | BYTEH(w)*256 + BYTEL(w) == w |
| Words.HiNibble | drivers/input/touchscreen/max1187x.c:45 | HI_NIBBLE is the quotient of the byte by 16, in 0..15 |
| Words.LoNibble | drivers/input/touchscreen/max1187x.c:46 | HI_NIBBLE*16 + LO_NIBBLE rebuilds the byte |
| Words.MakeWord | drivers/input/touchscreen/max1187x.c:43-44 | the word built from (hi, lo) has BYTEH hi and BYTEL lo |
| Words.SplitJoin | drivers/input/touchscreen/max1187x.c:43-44 | splitting a word with BYTEH/BYTEL and joining the bytes gives it back |
| Words.Overwrite | drivers/input/touchscreen/max1187x.c:2428 | a memcpy into a buffer: length kept, the copied words at the offset, every other word unchanged |
| Transport.Send | drivers/input/touchscreen/max1187x.c:397-446 | a transmit appends exactly its frame to the log and returns the next scripted count, -EIO once the script is exhausted |
| Transport.Recv | drivers/input/touchscreen/max1187x.c:346-395 | a receive logs nothing, consumes the next scripted reply (-EIO when none is left) and delivers at most the requested number of units |
| Transport.LowBytes | drivers/input/touchscreen/max1187x.c:346-365 | byte reads keep the low byte of each received unit, in order |
| Transport.Bus.TxWords | drivers/input/touchscreen/max1187x.c:418-446 | i2c_tx_words changes the bus exactly as Send of a word frame and returns its count |
| Transport.Bus.TxBytes | drivers/input/touchscreen/max1187x.c:397-416 | i2c_tx_bytes changes the bus exactly as Send of a byte frame and returns its count |
| Transport.Bus.Rx | drivers/input/touchscreen/max1187x.c:346-395 | i2c_rx_words/bytes change the bus exactly as Recv and return its count and data |
| Framing.PacketCount | drivers/input/touchscreen/max1187x.c:556-558 | the packet count is ceil(len/9): (p-1)*9 < len <= p*9 |
| Framing.CommandHeader | drivers/input/touchscreen/max1187x.c:560-567 | the header word decodes to total packets (high nibble), packet number (low nibble of the high byte) and size (low byte) |
| Framing.CommandFrame | drivers/input/touchscreen/max1187x.c:561-569 | frame i starts at address 0x0000 and is its payload size plus 2 words long |
| Framing.CommandFrames | drivers/input/touchscreen/max1187x.c:556-563 | a valid command yields exactly ceil(len/9) frames |
| Framing.SendAll | drivers/input/touchscreen/max1187x.c:570-578 | sending the frames returns 0 or -EIO |
| Framing.ValidCommandFitsHeader | drivers/input/touchscreen/max1187x.c:545-558 | a length accepted by the guard needs 1 to 15 packets, so the packet count fits the header nibble |
| Framing.Attempted | drivers/input/touchscreen/max1187x.c:563-578 | the number of frames handed to the bus never exceeds the number of packets |
| Framing.WordFrames | drivers/input/touchscreen/max1187x.c:570-571 | each packet is transmitted as one word frame, in packet order |
| Framing.HeaderFields | drivers/input/touchscreen/max1187x.c:564-567 | header i names the packet count, number i+1 and the size; sizes are 9 except the last, which is 1..9 |
| Framing.FramePayload | drivers/input/touchscreen/max1187x.c:568-569 | packet k carries command words 9k .. 9k+size, and only the last packet reaches the end of the command |
| Framing.PayloadsRebuildCommand | drivers/input/touchscreen/max1187x.c:563-580 | the payloads joined in order are the command: nothing lost, repeated or reordered, so the sizes sum to len |
| Framing.SendAllSendsPrefix | drivers/input/touchscreen/max1187x.c:570-578 | exactly the frames up to the first short write are logged, in order; the result is 0 iff every write was whole, else -EIO |
| Framing.FrameAt | drivers/input/touchscreen/max1187x.c:564-569 | the tx_buf built in pass i, with size from the decremented len, is frame i |
| Framing.EarlyPacketFull | drivers/input/touchscreen/max1187x.c:565-579 | before the last packet, len is at least 9, so the u16 decrement gives exactly the words still to send |
| Framing.SendAllStep | drivers/input/touchscreen/max1187x.c:570-579 | a frame sent whole moves the send on to the remaining frames |
| Framing.SendPacket | drivers/input/touchscreen/max1187x.c:564-578 | one loop pass transmits exactly frame i, reporting its payload size |
| Framing.SendMtpCommand | drivers/input/touchscreen/max1187x.c:539-584 | an invalid length returns -EINVAL with nothing sent; otherwise the bus and the result are those of sending all frames in order, stopping at the first short write |
| PacketRead.ReadMtpReport | drivers/input/touchscreen/max1187x.c:449-536 | the packet buffer keeps its 246 words and the result is 0 or -EIO |
| PacketRead.ReadAt | drivers/input/touchscreen/max1187x.c:519-532 | the second read returns 0 or -EIO, keeps the buffer length and the latch, and leaves the words outside [offset, offset+count) unchanged |
| PacketRead.AcceptedHeader | drivers/input/touchscreen/max1187x.c:475-532 | once the header is accepted, the rest is the second read at the raw offset (0 outside raw mode), and it fits the buffer |
| PacketRead.AddressFailure | drivers/input/touchscreen/max1187x.c:457-461 | a failed address write returns -EIO at once: one frame sent, no read, buffer and latch unchanged |
| PacketRead.HeaderRefused | drivers/input/touchscreen/max1187x.c:463-504 | a header read of the wrong count (2, or the window in raw mode) or with size > 245 gives -EIO, the latch unchanged and nothing more sent |
| PacketRead.RawLatch | drivers/input/touchscreen/max1187x.c:475-508 | after an accepted header, a first packet of report 0x0800 switches raw mode on outside raw mode, a first packet of another report switches it off in raw mode, and nothing else moves it |
| PacketRead.PlainRead | drivers/input/touchscreen/max1187x.c:479-494 | a successful non-raw read sends the address twice and reads size+1 words over the buffer from word 0 |
| PacketRead.RawRead | drivers/input/touchscreen/max1187x.c:510-532 | a successful raw read fetches the part beyond the window at address 0x0A+window when the packet is longer than the window, else the whole packet again from 0x0A; together the reads cover the packet |
| Reassembly.Combine | drivers/input/touchscreen/max1187x.c:2398-2435 | the report stays 1000 words long |
| Reassembly.OnePacketReport | drivers/input/touchscreen/max1187x.c:2406-2411 | sequence byte 0x11: returns 0, header and payload copied to the start, length = size, counter = 1, rest of the report untouched |
| Reassembly.FirstFragment | drivers/input/touchscreen/max1187x.c:2416-2424 | a first fragment of a raw image: -EAGAIN, copy, length = report[2]+2, counter = 1; any other first fragment: -EIO and nothing changed |
| Reassembly.LaterFragment | drivers/input/touchscreen/max1187x.c:2425-2434 | fragment n is accepted iff n == counter+1; then counter = n, its payload lands at (n-1)*244+1 and nothing else changes, result 0 iff n is the last; otherwise -EIO and nothing changed |
| Reassembly.ProgressLooksLikeError | drivers/input/touchscreen/max1187x.c:2429-2432 | an in-order fragment that is not the last is stored and counted, yet returns -EIO |
| Reassembly.RefusalChangesNothing | drivers/input/touchscreen/max1187x.c:2423-2434 | every refusal that stores no fragment leaves report, length and counter unchanged |
| Reassembly.CombineResults | drivers/input/touchscreen/max1187x.c:2398-2435 | the results are 0, -EAGAIN and -EIO only, and -EAGAIN only for the first fragment of a raw image |
| Reassembly.TwoPacketImage | drivers/input/touchscreen/max1187x.c:2416-2430 | a raw image in two packets is assembled whole: first packet at the start, second payload from word 245, the second call returning 0 |
| Correlator.ProcessRbcmd | drivers/input/touchscreen/max1187x.c:2385-2396 | the rbcmd copy stays 1000 words long |
| Correlator.ProcessRbcmdHandsOver | drivers/input/touchscreen/max1187x.c:2387-2395 | a waiting caller whose id equals rx_report[1] gets received set, rx_report_len+1 words copied and the length, so the copy's word 1 is the id waited for; in every other case nothing changes |
| Readers.SignalAll | drivers/input/touchscreen/max1187x.c:2454-2470 | the loop treats every slot, keeping the table size |
| Readers.SignalsCount | drivers/input/touchscreen/max1187x.c:2454-2462 | the number of signals is the number of signalled slots, each counted once |
| Readers.OutstandingCountsReaders | drivers/input/touchscreen/max1187x.c:2454-2472 | a delivered report raises outstanding (u8) by the number of slots that want its id, and the gate reopens iff the count is 0 |
| Readers.Deliver | drivers/input/touchscreen/max1187x.c:2454-2472 | the table keeps its size; an error status leaves outstanding; the gate is given back iff outstanding ends at 0 and kept otherwise |
| Readers.Propagate | drivers/input/touchscreen/max1187x.c:2437-2474 | the table keeps its size, the rbcmd id and waiting flag stay; the gate is either unchanged or taken with reports outstanding |
| Readers.Register | drivers/input/touchscreen/max1187x.c:2476-2494 | 0 or -EBUSY, -EBUSY iff every slot is occupied; table size, outstanding count and gate unchanged |
| Readers.Complete | drivers/input/touchscreen/max1187x.c:2502-2510 | the slot is freed and every other slot unchanged; the result is the stored status when set, else the wait result |
| Readers.Release | drivers/input/touchscreen/max1187x.c:2513-2519 | the table is unchanged; a positive outstanding count drops by one; the gate is given back iff the count ends at 0 |
| Readers.FirstFree | drivers/input/touchscreen/max1187x.c:2481-2483 | the search stops at the lowest slot with id 0, or at 5 when all are taken |
| Readers.DeliverReport | drivers/input/touchscreen/max1187x.c:2454-2472 | on status 0 exactly the slots with id 0xFFFF or the nonzero rx_report[1] are signalled, each with reports_passed+1; outstanding rises by their number (u8) and the gate reopens iff outstanding is 0 |
| Readers.DeliverError | drivers/input/touchscreen/max1187x.c:2464-2469 | on an error status every occupied slot gets the status and a signal; free slots and the counter are untouched |
| Readers.IncompleteReportDeliversNothing | drivers/input/touchscreen/max1187x.c:2444-2450 | a packet that does not complete a report reaches no reader and no waiter, and the gate ends as it started |
| Readers.CompletedReportDelivered | drivers/input/touchscreen/max1187x.c:2441-2473 | a completed report (or none offered) goes to the rbcmd waiter, then to the readers, even on an error status; the gate stays taken while reports are outstanding |
| Readers.RegisterLowestFree | drivers/input/touchscreen/max1187x.c:2480-2494 | get_report claims the lowest free slot (semaphore taken, status and count 0); with all five taken: -EBUSY, table unchanged |
| Readers.CompleteFreesSlot | drivers/input/touchscreen/max1187x.c:2502-2510 | the slot is freed; the stored status is returned when set, else the wait result; a reader whose wait failed after reports were passed retires one outstanding report (u8) and gives the gate back iff none is left; otherwise counter and gate stay |
| Readers.ReleasesGiveGateBackOnce | drivers/input/touchscreen/max1187x.c:2513-2519 | n releases of n outstanding reports bring the count to 0 and give the gate back exactly once |
| Readers.ReleaseUnderflow | drivers/input/touchscreen/max1187x.c:2516 | a release with nothing outstanding wraps the u8 count to 255 and leaves the gate |
| Exchange.CmdSend | drivers/input/touchscreen/max1187x.c:1332-1348 | an invalid command returns -EINVAL with nothing sent |
| Exchange.Deliveries | drivers/input/touchscreen/max1187x.c:1372-1373 | the reports completed during the wait keep the rbcmd state well formed |
| Exchange.SendReceive | drivers/input/touchscreen/max1187x.c:1355-1388 | a call keeps the rbcmd state well formed |
| Exchange.Retry | drivers/input/touchscreen/max1187x.c:1400-1406 | the retry loop keeps the rbcmd state well formed |
| Exchange.DeliveriesFlags | drivers/input/touchscreen/max1187x.c:2387-2392 | during the wait the id and waiting flag stay; received ends set iff it was set or a report with the id arrived |
| Exchange.NoMatchNoChange | drivers/input/touchscreen/max1187x.c:2389-2390 | reports with other ids leave the rbcmd fields alone |
| Exchange.LastMatchWins | drivers/input/touchscreen/max1187x.c:2392-2394 | of several reports with the id, the copy holds the last one, with its length |
| Exchange.SendReceiveOutcome | drivers/input/touchscreen/max1187x.c:1360-1387 | 0 iff semaphore taken, command sent, wait not interrupted and a report with the id arrived, else -ERESTARTSYS; an interrupted down changes nothing; otherwise waiting is cleared |
| Exchange.SendReceiveCopy | drivers/input/touchscreen/max1187x.c:1372-1380 | after success the copy holds the last report with the id received during this call |
| Exchange.RetryOutcome | drivers/input/touchscreen/max1187x.c:1400-1411 | the query loop returns 0 or -ERESTARTSYS; 0 iff one of the five passes returns 0, and then the state is that of the first such pass, whose copy holds the last report with the id received in that pass; -ERESTARTSYS only when every pass failed |
| Exchange.CopiedWord | drivers/input/touchscreen/max1187x.c:1413-1438 | a word of the copy taken in pass p is that word of the last report with the id received in pass p |
| Exchange.ChipDataOutcome | drivers/input/touchscreen/max1187x.c:1390-1447 | 0 or -ERESTARTSYS; on success chip_id = BYTEH(word 4) of the version report from the first successful pass of the first query and config_id = word 3 of the config report from the first successful pass of the second; a failed query leaves the ids it did not reach |
| Exchange.ReadChipData | drivers/input/touchscreen/max1187x.c:1390-1447 | the rbcmd state stays well formed and a failure leaves config_id unchanged |
| Fingers.DownEvents | drivers/input/touchscreen/max1187x.c:877-878 | one down/move event per touch record, in record order, new iff the id was not in the previous report |
| Fingers.DownPassIds | drivers/input/touchscreen/max1187x.c:680-692 | the down pass adds the record ids to the current ids and leaves the previous ids and frame counter |
| Fingers.DownPassKeepsOtherTools | drivers/input/touchscreen/max1187x.c:680-690 | an id not touched keeps its tool bit (a stylus that left keeps its bit) |
| Fingers.DownPassEvents | drivers/input/touchscreen/max1187x.c:877-878 | the down pass appends exactly DownEvents to the log |
| Fingers.LastRecordDecidesTool | drivers/input/touchscreen/max1187x.c:680-690 | the last record of an id decides whether its tool bit is set |
| Fingers.UpPassIds | drivers/input/touchscreen/max1187x.c:736-758 | the up pass removes exactly the released ids from the previous ids; current ids and tool masks untouched |
| Fingers.UpPassEvents | drivers/input/touchscreen/max1187x.c:879-882 | the up pass logs one up event per released id in increasing id order |
| Fingers.UpEventsReleased | drivers/input/touchscreen/max1187x.c:736-758 | every up event is for a released id below 10 with the tool that id had |
| Fingers.HighIdsNeverUp | drivers/input/touchscreen/max1187x.c:879-882 | ids 10 to 15 are never put up by the up pass |
| Fingers.TouchReport | drivers/input/touchscreen/max1187x.c:873-885 | with 1..10 touches the ids down are exactly the record ids and become the previous ids with their tools; down events then up events for ids that left |
| Fingers.EmptyReport | drivers/input/touchscreen/max1187x.c:864-871 | a report with no touches puts every id up and clears the previous ids and tool bits |
| Fingers.IgnoredReports | drivers/input/touchscreen/max1187x.c:823-867 | other reports and repeated frame counters change nothing (a wake-up only logs the key); a count above 10 only records the frame counter |
| Fingers.ReportDown | drivers/input/touchscreen/max1187x.c:680-690 | the id joins the current ids, with its tool bit set iff it is a stylus; previous ids, tools and frame counter kept; one event appended |
| Fingers.ReportUp | drivers/input/touchscreen/max1187x.c:728-758 | the id leaves the previous ids and no id joins them; current ids and tool masks kept; one event appended iff the id was down |
| Fingers.Invalidate | drivers/input/touchscreen/max1187x.c:769-795 | previous ids and tool bits cleared, current ids and frame counter kept, one event appended |
| Fingers.DownFrom | drivers/input/touchscreen/max1187x.c:877-878 | the down loop only adds current ids and appends one event per record |
| Fingers.UpFrom | drivers/input/touchscreen/max1187x.c:879-882 | the up loop only removes previous ids and only appends events |
| Fingers.ProcessReport | drivers/input/touchscreen/max1187x.c:814-888 | the event log only grows, and a packet that is not a one-packet report changes nothing |
| TouchMath.FloorSqrtUnique | drivers/input/touchscreen/max1187x.c:596-602 | the floor square root the bit search finds is unique |
| TouchMath.RoundedSqrtUnique | drivers/input/touchscreen/max1187x.c:603-607 | the rounded square root is unique |
| TouchMath.SmallShortcutAgrees | drivers/input/touchscreen/max1187x.c:593-594 | returning 0 and 1 unchanged agrees with rounding |
| TouchMath.RoundFloor | drivers/input/touchscreen/max1187x.c:603-607 | the rounding step rounds up exactly when the next square is strictly closer; ties go down, never past 256 |
| TouchMath.Sqrt | drivers/input/touchscreen/max1187x.c:587-610 | max1187x_sqrt returns num below 2, otherwise the square root rounded to nearest (ties down), at most 256 |
| TouchMath.ScalePressure | drivers/input/touchscreen/max1187x.c:693-695 | pressure = min(45 + rounded sqrt(z), 181), always in 45..181 |
| TouchMath.RoundedSqrtMonotone | drivers/input/touchscreen/max1187x.c:693-695 | the scaled pressure never drops as the raw pressure rises |
| TouchMath.ReverseInside | drivers/input/touchscreen/max1187x.c:670-679 | a coordinate inside the axis maps to its mirror inside the axis |
| TouchMath.ReverseTwice | drivers/input/touchscreen/max1187x.c:670-679 | reversing twice gives the coordinate back, even with u16 truncation |
| TouchMath.Reverse | drivers/input/touchscreen/max1187x.c:670-679 | the reversed coordinate and the original add up to margin_l + lcd + margin_h - 1 modulo 2^16 |
| TouchMath.ValidatePdata | drivers/input/touchscreen/max1187x.c:1974-2016 | the verdict is 0 or -ENXIO |
| TouchMath.AcceptedPdataCells | drivers/input/touchscreen/max1187x.c:652-653 | accepted platform data makes the cell sizes defined and at least 12 and 6 pixels, the screen within 15 bits |
| TouchMath.PwrEnOnlyLogged | drivers/input/touchscreen/max1187x.c:1986-1988 | a missing power-enable GPIO does not change the verdict |
| BootloaderSpec.StatusPollQuiet | drivers/input/touchscreen/max1187x.c:2634-2658 | a status poll sends no flash block |
| BootloaderSpec.StatusPoll | drivers/input/touchscreen/max1187x.c:2634-2658 | up to 3 attempts of send 2 bytes, read 2 bytes; a retry transmits the bytes just read, and a short transfer or three wrong readings give -EIO (frames: BootloaderProps.StatusPollFirstFrame, StatusRetrySendsBytesRead) |
| BootloaderSpec.ReadStatusReg | drivers/input/touchscreen/max1187x.c:2634-2658 | the status poll started from the status-register address 0xFF 0x00; result 0 or -EIO |
| BootloaderSpec.WriteStatusReg | drivers/input/touchscreen/max1187x.c:2660-2671 | one 4-byte frame to the status register; -EIO on a short write, else 0 (no flash block: BootloaderProps.WriteStatusRegQuiet) |
| BootloaderSpec.RxTxComplete | drivers/input/touchscreen/max1187x.c:2673-2677 | the 0x32 0x54 status write acknowledging a transfer; result 0 or -EIO |
| BootloaderSpec.ReadDataReg | drivers/input/touchscreen/max1187x.c:2679-2700 | address the data register, read 4 bytes, refuse only when both status bytes differ from 0xCC 0xAB, then acknowledge; result 0 or -EIO (BootloaderProps.ReadDataRegTraffic, ReadDataRegReadyTest) |
| BootloaderSpec.WriteDataReg | drivers/input/touchscreen/max1187x.c:2702-2718 | wait for the ready status, then one 6-byte frame of data bytes and completion code; result 0 or -EIO (BootloaderProps.WriteDataRegQuiet) |
| BootloaderSpec.RxTx | drivers/input/touchscreen/max1187x.c:2720-2736 | a data write when tx > 0, else a data read, with any failure folded to -EIO; result 0 or -EIO (BootloaderProps.RxTxQuiet) |
| BootloaderSpec.CmdConf | drivers/input/touchscreen/max1187x.c:2738-2752 | the do-while reading the data register until it holds 0x3E 0x00, at least once and at most max(retries, 1) times; result 0 or -EIO (BootloaderProps.CmdConfReads, CmdConfAtLeastOnce) |
| BootloaderSpec.WriteBufferFrom | drivers/input/touchscreen/max1187x.c:2754-2766 | one data write per byte from byte k, high byte 0x00, stopping with -EIO at the first failure; result 0 or -EIO (BootloaderProps.WriteBufferFromQuiet) |
| BootloaderSpec.WriteBuffer | drivers/input/touchscreen/max1187x.c:2754-2766 | the byte loop of bootloader_write_buffer from byte 0; result 0 or -EIO |
| BootloaderSpec.Enter | drivers/input/touchscreen/max1187x.c:2768-2788 | the three enter sequences, stopping at the first short write, then a confirmation with 5 retries; result 0 or -EIO |
| BootloaderSpec.Exit | drivers/input/touchscreen/max1187x.c:2790-2806 | the three exit sequences, stopping at the first short write; result 0 or -EIO |
| BootloaderSpec.GetCrc | drivers/input/touchscreen/max1187x.c:2808-2846 | the 6-byte CRC command (address and length low byte first), two data reads whose low bytes form the CRC, then a confirmation with 5 retries; result 0 or -EIO (BootloaderProps.CrcFromLowDataBytes, LengthByteOrder) |
| BootloaderSpec.SetByteMode | drivers/input/touchscreen/max1187x.c:2848-2861 | the 0x0A 0x00 buffer write, then a confirmation with 10 retries; result 0 or -EIO |
| BootloaderSpec.EraseWait | drivers/input/touchscreen/max1187x.c:2873-2881 | up to 10 confirmations, each a single data read (get_cmd_conf with 0); result 0 or -EIO (BootloaderProps.EraseWaitReads) |
| BootloaderSpec.EraseFlash | drivers/input/touchscreen/max1187x.c:2863-2889 | the 0x02 0x00 data write, then the erase confirmation loop; result 0 or -EIO |
| BootloaderSpec.ReadyPoll | drivers/input/touchscreen/max1187x.c:2910-2919 | up to 100 ready-status polls before a block; result 0 or -EIO (no flash block: BootloaderSpec.ReadyPollQuiet) |
| BootloaderSpec.WriteFlash | drivers/input/touchscreen/max1187x.c:2891-2944 | the fast-write command (length high byte first), length>>7 whole blocks, then a confirmation with 5 retries; result 0 or -EIO (BootloaderProps.WriteFlashSendsWholeBlocks) |
| BootloaderSpec.ReadyPollQuiet | drivers/input/touchscreen/max1187x.c:2910-2915 | the ready wait before a block sends no flash block |
| BootloaderSpec.BlockStepAddsBlock | drivers/input/touchscreen/max1187x.c:2910-2935 | one block iteration returns 0 or -EIO, and on 0 adds exactly block i (buffer address alternating 0x00/0x40) to the blocks sent |
| BootloaderSpec.BlockRun | drivers/input/touchscreen/max1187x.c:2909-2925 | blocks i..n-1 are n-i frames |
| BootloaderSpec.WriteBlocks | drivers/input/touchscreen/max1187x.c:2909-2936 | the block loop returns 0 or -EIO, and on 0 has added exactly blocks i..n-1 in order |
| Bootloader.ReadStatusReg | drivers/input/touchscreen/max1187x.c:2634-2658 | the method's bus and result are those of the status poll |
| Bootloader.StatusAttempt | drivers/input/touchscreen/max1187x.c:2639-2650 | one attempt either ends the status poll with its bus and result, or leaves a bus and buffer from which the remaining attempts give the same outcome |
| Bootloader.WriteStatusReg | drivers/input/touchscreen/max1187x.c:2660-2671 | the method's bus and result are BootloaderSpec.WriteStatusReg's |
| Bootloader.RxTxComplete | drivers/input/touchscreen/max1187x.c:2673-2677 | the method's bus and result are BootloaderSpec.RxTxComplete's |
| Bootloader.ReadDataReg | drivers/input/touchscreen/max1187x.c:2679-2700 | bus, result and data bytes are BootloaderSpec.ReadDataReg's |
| Bootloader.WriteDataReg | drivers/input/touchscreen/max1187x.c:2702-2718 | the method's bus and result are BootloaderSpec.WriteDataReg's |
| Bootloader.RxTx | drivers/input/touchscreen/max1187x.c:2720-2736 | bus, result and bytes are BootloaderSpec.RxTx's |
| Bootloader.CmdConf | drivers/input/touchscreen/max1187x.c:2738-2752 | the do-while's bus and result are BootloaderSpec.CmdConf's |
| Bootloader.WriteBuffer | drivers/input/touchscreen/max1187x.c:2754-2766 | the byte loop's bus and result are BootloaderSpec.WriteBuffer's |
| Bootloader.SendSequences | drivers/input/touchscreen/max1187x.c:2776-2781 | the magic sequences go out in order, stopping with -EIO at the first short write |
| Bootloader.Enter | drivers/input/touchscreen/max1187x.c:2768-2788 | the method's bus and result are BootloaderSpec.Enter's |
| Bootloader.Exit | drivers/input/touchscreen/max1187x.c:2790-2806 | the method's bus and result are BootloaderSpec.Exit's |
| Bootloader.GetCrc | drivers/input/touchscreen/max1187x.c:2808-2846 | bus, result and CRC are BootloaderSpec.GetCrc's |
| Bootloader.SetByteMode | drivers/input/touchscreen/max1187x.c:2848-2861 | the method's bus and result are BootloaderSpec.SetByteMode's |
| Bootloader.EraseFlash | drivers/input/touchscreen/max1187x.c:2863-2889 | the method's bus and result are BootloaderSpec.EraseFlash's |
| Bootloader.WaitReady | drivers/input/touchscreen/max1187x.c:2910-2919 | the up-to-100 status wait equals BootloaderSpec.ReadyPoll |
| Bootloader.WriteBlock | drivers/input/touchscreen/max1187x.c:2910-2935 | one block iteration equals BootloaderSpec.BlockStep |
| Bootloader.WriteBlocksFrom | drivers/input/touchscreen/max1187x.c:2909-2936 | the block loop equals BootloaderSpec.WriteBlocks |
| Bootloader.WriteFlash | drivers/input/touchscreen/max1187x.c:2891-2944 | the method's bus and result are BootloaderSpec.WriteFlash's |
| BootloaderProps.WriteStatusRegQuiet | drivers/input/touchscreen/max1187x.c:2660-2671 | a status write sends no flash block |
| BootloaderProps.ReadDataRegTraffic | drivers/input/touchscreen/max1187x.c:2679-2700 | a data read addresses the data register exactly once and sends no flash block |
| BootloaderProps.WriteDataRegQuiet | drivers/input/touchscreen/max1187x.c:2702-2718 | a data write sends no flash block |
| BootloaderProps.RxTxQuiet | drivers/input/touchscreen/max1187x.c:2720-2736 | bootloader_rxtx sends no flash block |
| BootloaderProps.WriteBufferFromQuiet | drivers/input/touchscreen/max1187x.c:2754-2766 | a buffer write sends no flash block |
| BootloaderProps.CmdConfReads | drivers/input/touchscreen/max1187x.c:2738-2752 | the confirmation reads the data register at least once and at most max(retries, 1) times |
| BootloaderProps.CmdConfAtLeastOnce | drivers/input/touchscreen/max1187x.c:2742-2749 | a retry count of 0 or less behaves exactly as 1 (do-while) |
| BootloaderProps.EraseWaitReads | drivers/input/touchscreen/max1187x.c:2873-2881 | the erase confirmation, calling get_cmd_conf with 0, reads the data register 1 to 10 times |
| BootloaderProps.ReadDataRegReadyTest | drivers/input/touchscreen/max1187x.c:2691-2699 | a reply is refused only when both status bytes differ from the ready code; otherwise its data bytes are taken and the transfer acknowledged |
| BootloaderProps.StatusPollFirstFrame | drivers/input/touchscreen/max1187x.c:2639-2640 | a status attempt starts by sending its 2-byte buffer |
| BootloaderProps.StatusRetrySendsBytesRead | drivers/input/touchscreen/max1187x.c:2639-2650 | after a wrong status the next attempt sends the two bytes just read as the address |
| BootloaderProps.LengthByteOrder | drivers/input/touchscreen/max1187x.c:2895-2898 | the fast-write command carries the length high byte first, the CRC command low byte first |
| BootloaderProps.CrcFromLowDataBytes | drivers/input/touchscreen/max1187x.c:2816-2837 | on success the low CRC byte is the first read's low data byte and the high CRC byte the second read's low data byte |
| BootloaderProps.WriteFlashSendsWholeBlocks | drivers/input/touchscreen/max1187x.c:2907-2936 | a successful write sends exactly length>>7 whole blocks in order; the trailing length%128 bytes are never sent |
| FirmwareSpec.EffectiveId | drivers/input/touchscreen/max1187x.c:1550-1558 | a nonzero chip id is used as is; 0 is replaced by the platform default |
| FirmwareSpec.ProbePass | drivers/input/touchscreen/max1187x.c:1470-1477 | one probe pass counts as one pass |
| FirmwareSpec.Probe | drivers/input/touchscreen/max1187x.c:1468-1478 | the probe do-while makes at least one pass more than it started with |
| FirmwareSpec.ReflashPass | drivers/input/touchscreen/max1187x.c:1492-1509 | one reprogram attempt counts as one attempt |
| FirmwareSpec.Reflash | drivers/input/touchscreen/max1187x.c:1485-1510 | the reprogram loop never counts fewer attempts than it started with |
| FirmwareSpec.FinalExit | drivers/input/touchscreen/max1187x.c:1516-1520 | the final exit loop returns 0 or -EIO |
| FirmwareSpec.FwLoad | drivers/input/touchscreen/max1187x.c:1449-1526 | device_fw_load returns 0, -EIO or -EAGAIN, and a file of the wrong size gives -EIO with the bus untouched and no attempt |
| FirmwareSpec.ProbeBounded | drivers/input/touchscreen/max1187x.c:1469-1478 | the probe makes 1 to 5 passes and stops early only once a CRC was read |
| FirmwareSpec.ReflashBounded | drivers/input/touchscreen/max1187x.c:1488-1510 | at most 5 reprogram attempts, at least one more when allowed and the CRCs differ, and differing CRCs at the end only after the fifth |
| FirmwareSpec.SizeMismatchRefused | drivers/input/touchscreen/max1187x.c:1460-1464 | a file of the wrong size gives -EIO before anything is sent |
| FirmwareSpec.CurrentFirmwareKept | drivers/input/touchscreen/max1187x.c:1483-1484 | default mode with a matching code-region CRC: no reprogram attempt, only the final exit, result 0 or -EIO |
| FirmwareSpec.UnreadCrcForcesReflash | drivers/input/touchscreen/max1187x.c:1455-1489 | a chip CRC never read (-1) always leads to at least one reprogram attempt |
| FirmwareSpec.ReflashAttempts | drivers/input/touchscreen/max1187x.c:1483-1510 | forced or with differing CRCs, the attempts counted are those of the reprogram loop on the full-image CRC |
| FirmwareSpec.AttemptsBounded | drivers/input/touchscreen/max1187x.c:1485-1525 | at most 5 attempts, results 0, -EIO or -EAGAIN, a wrong file size gives -EIO; with the right size: -EAGAIN iff the chip was reprogrammed and the read-back CRC still differs from the file's (after all five attempts), 0 iff the chip's CRC is verified (read back after reprogramming, or the probed code CRC) and the final exit succeeds, -EIO iff verified but the exit fails |
| FirmwareSpec.SecondAttemptSuffices | drivers/input/touchscreen/max1187x.c:1488-1510 | when the second attempt's CRC matches, the loop stops after exactly two attempts |
| FirmwareSpec.FinalExitResult | drivers/input/touchscreen/max1187x.c:1516-1523 | the final exit loop ends with 0 or -EIO |
| Firmware.ProbeOnce | drivers/input/touchscreen/max1187x.c:1470-1477 | one probe pass equals FirmwareSpec.ProbePass |
| Firmware.ProbeChip | drivers/input/touchscreen/max1187x.c:1468-1478 | the probe do-while equals FirmwareSpec.Probe |
| Firmware.ReflashOnce | drivers/input/touchscreen/max1187x.c:1492-1509 | one reprogram attempt equals FirmwareSpec.ReflashPass |
| Firmware.ReprogramChip | drivers/input/touchscreen/max1187x.c:1485-1510 | the reprogram loop equals FirmwareSpec.Reflash, attempts included |
| Firmware.LeaveBootloader | drivers/input/touchscreen/max1187x.c:1516-1520 | the final exit do-while equals FirmwareSpec.FinalExit |
| Firmware.DeviceFwLoad | drivers/input/touchscreen/max1187x.c:1449-1526 | bus, result and attempts are FirmwareSpec.FwLoad's |
| Firmware.FindFirmware | drivers/input/touchscreen/max1187x.c:1549-1570 | the result is the first entry matching both ids (zero ids replaced by the defaults), or the table size when none matches |
| Driver.CopyIn | drivers/input/touchscreen/max1187x.c:2428 | the array after the memcpy is Overwrite of its old contents |
| Driver.FirstFreeIs | drivers/input/touchscreen/max1187x.c:2481-2483 | the slot the table search stops at is FirstFree's |
| Driver.Controller.constructor | drivers/input/touchscreen/max1187x.c:2091-2117 | fresh distinct buffers, all reader slots free, both semaphores 1, nothing outstanding, not waiting, not raw, no ids |
| Driver.Controller.ReadMtpReport | drivers/input/touchscreen/max1187x.c:449-536 | bus, result, rx_packet and is_raw_mode are PacketRead.ReadMtpReport's |
| Driver.Controller.ReadAt | drivers/input/touchscreen/max1187x.c:519-532 | the second read changes bus and rx_packet as PacketRead.ReadAt |
| Driver.Controller.Combine | drivers/input/touchscreen/max1187x.c:2398-2435 | rx_report, its length and the counter, and the result, are Reassembly.Combine's |
| Driver.Controller.ProcessRbcmd | drivers/input/touchscreen/max1187x.c:2385-2396 | the rbcmd fields become Correlator.ProcessRbcmd's |
| Driver.Controller.PropagateReport | drivers/input/touchscreen/max1187x.c:2437-2474 | report, rbcmd fields and reader table become Readers.Propagate's |
| Driver.Controller.SignalReaders | drivers/input/touchscreen/max1187x.c:2454-2472 | the reader table and gate become Readers.Deliver's |
| Driver.Controller.SignalEach | drivers/input/touchscreen/max1187x.c:2454-2470 | every slot is signalled as SignalAll, and outstanding rises by the number signalled (u8) on status 0 |
| Driver.Controller.RegisterReader | drivers/input/touchscreen/max1187x.c:2480-2494 | table, result and slot are Readers.Register's |
| Driver.Controller.CompleteReport | drivers/input/touchscreen/max1187x.c:2502-2510 | table and result are Readers.Complete's |
| Driver.Controller.ReleaseReport | drivers/input/touchscreen/max1187x.c:2513-2519 | the table becomes Readers.Release's |
| Driver.Controller.CmdSend | drivers/input/touchscreen/max1187x.c:1332-1348 | cmd_buf holds the command and the bus and result are Exchange.CmdSend's |
| Driver.Controller.RbcmdSendReceive | drivers/input/touchscreen/max1187x.c:1355-1388 | rbcmd fields, rx_report, bus and result are Exchange.SendReceive's; sema_rbcmd ends as it started |
| Driver.Controller.AwaitReports | drivers/input/touchscreen/max1187x.c:1372-1375 | the reports completed during the wait pass through process_rbcmd in order; rx_report is the last of them |
| Driver.Controller.ReadChipData | drivers/input/touchscreen/max1187x.c:1390-1447 | state, result, chip_id and config_id are Exchange.ReadChipData's |
| Driver.Controller.Query | drivers/input/touchscreen/max1187x.c:1400-1411 | the retry loop's outcome is Exchange.Retry's |
| Driver.Controller.ReportDown | drivers/input/touchscreen/max1187x.c:680-692 | the id sets and log become Fingers.ReportDown's |
| Driver.Controller.ReportUp | drivers/input/touchscreen/max1187x.c:736-758 | the id sets and log become Fingers.ReportUp's |
| Driver.Controller.InvalidateAllFingers | drivers/input/touchscreen/max1187x.c:769-795 | the id sets and log become Fingers.Invalidate's |
| Driver.Controller.ProcessReport | drivers/input/touchscreen/max1187x.c:814-888 | the finger state becomes Fingers.ProcessReport's on rx_packet |
| Driver.Controller.ReportTouches | drivers/input/touchscreen/max1187x.c:873-885 | the touch path leaves the finger state of Fingers.DownFrom then Fingers.UpFrom, with the current ids and tools becoming the previous ones |
| Driver.Controller.DownPass | drivers/input/touchscreen/max1187x.c:877-878 | the down loop's state is Fingers.DownFrom's |
| Driver.Controller.UpPass | drivers/input/touchscreen/max1187x.c:879-882 | the up loop's state is Fingers.UpFrom's |

## Left out

- The I2C primitives' retry-on-EAGAIN loops and `i2c_master_send`/`recv`
  (lines 346-446). The bus is a scripted transport, and `cpu_to_le16` is
  the identity. A script that runs out gives -EIO.
- Interrupt handlers, threads, mutexes and the blocking of semaphores and
  waits. These are concurrency. The results of `down_interruptible`,
  `down_timeout` and `wait_event_interruptible_timeout` are inputs, and so
  is the sequence of reports the interrupt thread completes during an rbcmd
  wait (`Exchange.Attempt`). A `down` that would block is excluded by a
  precondition (`Readers.Ready`, `Exchange.CanEnter`).
- Timeouts, `msleep` and `usleep_range`: delays leave no trace on the bus.
- Regulator, GPIO and reset handling, device-tree parsing, sysfs handlers,
  probe/remove/suspend/resume, and debug output. These are foreign kernel
  APIs.
- The input subsystem (`input_*`). Touches are recorded as an abstract event
  log (`Fingers.Event`) that also ignores whether an input device has users.
  - Coordinates, pressure, size and orientation computed by `report_down`
    are not logged. The pressure scale and reversed-axis arithmetic are
    modelled separately in `TouchMath`, and the X/Y swap is not modelled.
  - `report_buttons` and `report_sync` are not modelled. `used_tools` is
    updated as the driver does; `report_sync`, its only reader, is left out.
- The wake-up gesture condition (global flags and suspend state). It is the
  parameter `wake` of process_report.
- `crc16` from the kernel library: an uninterpreted function parameter.
- The u16 finger-id masks are sets of ids. A bit outside 0..15 cannot occur,
  since finger ids are 4-bit fields.
- The header `max1187x.h` (the platform data struct) is not part of this
  model. Its fields are the record `TouchMath.Pdata`. The packet header and
  touch report structs (max1187x.c lines 216-247) are read as the words and
  bits the driver uses.
- Reassembly.Combine: requires the fragment copy to stay inside the
  1000-word rx_report (`Reassembly.Fits`). The driver copies to
  (n-1)*244+1 without a bound, so an overflowing fragment is not modelled.
- Reassembly.Combine: also requires BYTEL of the packet header to be at
  most 245 (`Reassembly.IsPacket`), so the size+1 words it copies lie inside
  the 246-word rx_packet. read_mtp_report checks that bound only on its
  first read of the header (max1187x.c:496-498). The second read goes over
  word 0 again when its offset is 0 (lines 488 and 526), and nothing
  re-checks the header before combine_multipacketreport copies up to 256
  words (lines 2407 and 2420). A re-read header above 245, and the read
  past rx_packet it causes, are not modelled. Readers.Propagate (through
  `Readers.PropagateFits`), Driver.Controller.Combine and
  Driver.Controller.PropagateReport inherit this precondition.
- Correlator.ProcessRbcmd: requires the rx_report_len+1 word copy to fit
  the 1000-word rbcmd buffer (`CopyFits`). The driver does not check it.
- Exchange.SendReceive: the completed reports must fit as above
  (`ArrivalsFit`).
- Exchange.CmdSend: requires at most 135 words, because the driver's memcpy
  into cmd_buf is unchecked.
- PacketRead.ReadMtpReport: requires the raw-mode window (`i2c_words`) to be
  at most the 246-word packet buffer, because a larger window would
  overflow rx_packet.
- TouchMath.Sqrt: covers arguments up to 0xFFFF only, the u16 pressure its
  caller passes. Larger u32 arguments would overflow `guess * guess`.
- FirmwareSpec.FwLoad: requires codesize <= filesize, and so does
  Firmware.DeviceFwLoad. device_fw_load never checks file_codesize against
  the firmware size, so a table entry with a larger code size would make
  crc16 read past the image. That read is not modelled.
