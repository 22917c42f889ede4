# Verified models of the MIA-VITA node software

A MIA-VITA node samples geophones, stamps the samples with GPS time and sends them over an
802.11n mesh. This project models the parts of that software where a mistake corrupts or
reorders data and proves what they promise:

- **Receive reordering** of the rt3070 driver (`rt3070/common/ba_action.c`). `BlockAckReordering`
  is the session on 12-bit sequence numbers, branch by branch. `BlockAckRefinement` compares it
  with an unbounded reorder buffer that has one rule, slide the window and pass up what is before
  the first gap. `BlockAckOrder` draws the order, window and delivery theorems over whole runs.
  `BlockAckShared` runs many sessions side by side. `BlockAckDriver` is the linked-list code of all
  sessions on the block pool they share, proved against the first and the last.
- **Block-Ack sessions** of both directions (`BlockAckSessions`), the **MAC table** with its hash
  chains (`MacTable`), the **deletion of a station** that joins the two (`Stations`) and **A-MSDU
  de-aggregation** (`Deaggregation`).
- **TKIP**: the Michael code and its streaming computation (`Michael`) with a known answer
  (`MichaelVector`), and the key mixing in words that are too wide (`TkipMixing`) against the two
  phases of the standard (`TkipStandard`), all on integers with explicit wrap-around (`Words`).
- **ispVM JTAG player** (`ts7500ctl/ispvm.c`): pins, TAP controller and transition table
  (`JtagPort`), the scans (`JtagEngine`) and the decompression of rows (`RowDecoder`).
- **GPS framing** (`gps_time/trimble_lassen_iq/gps_time.c`): TSIP on byte sequences for every
  interleaving of the two threads (`TsipFraming`) and the in-place ring (`TsipReceiver`).
- **Sample ring** between the interrupt and the reader (`SampleRing`).
- **Filter framework**: doubly linked list (`KernelList`), filter chains and rules
  (`FilterChains`), the textual rule requests (`RuleRegistry`) and the checksum (`Checksum`).

Code that changes state in place is a class or a method with loops, proved against functions on
values. The theorems are about those functions.

## Properties that do not hold as one would hope

Each is stated with its exact condition.

- A step of the reordering agrees with the reference buffer if and only if it is `Clean`. It is not
  when a Block-Ack request names a frame that is held (the frame goes up and is then accepted again),
  when a request arrives before the first frame and starts in the upper half of the 12-bit numbers
  (it is ignored), or when a frame that gets no block, or an EAPOL frame, finds a copy of itself or
  its successor in the list. `BarDuplicates`, `BarIgnored` and `NoBlockDuplicates` show all three.
- An EAPOL frame that reaches the enqueue takes a block from the pool that nobody gives back, and
  over every run of all sessions that is the only way to lose one.
- Deleting a station keeps the session tables consistent if and only if there was memory for the
  DELBAs or none was due. Otherwise a slot stays in use that nothing leads to.
- A TSIP message is found as it was sent if and only if its id is not ETX. An id equal to DLE is
  harmless, although the format excludes it.
- An uninterrupted `read_nsamples` returns what is unread if and only if at most 1023 samples wait.
- `csum` is the complement of the one's-complement sum for up to 65537 words, and for every larger
  size there is a buffer where it is not.
- De-aggregation returns exactly the subframes if and only if every payload but the last has
  15 to 1514 bytes and the last has 1 to 1518.
- A nibble-block row is restored if and only if the nibbles beyond the last whole block are zero.
- A rule request is read back as written if and only if the name is not empty, has no colon, and the
  text is shorter than the buffer of 800 characters. `LongestName` gives the bound for a bare name.
- A whole SIR that starts in SHIFTIR, as after a cascaded SIR, shifts one stray bit first.

## Model

| member | source | states |
|---|---|---|
| BlockAckReordering.RunConserves | rt3070/common/ba_action.c:1680-1827 | over every run of data frames, timeouts, requests and idle timers, from every session state and whatever the pool answers, each frame is announced, released or still in the list exactly as often as it arrived |
| BlockAckReordering.StepConserves | rt3070/common/ba_action.c:440-489 | one event neither duplicates nor loses a frame, for any list, sorted or not |
| BlockAckReordering.ReceiveConserves | rt3070/common/ba_action.c:1746-1826 | the five receive cases keep count of every frame, the slide over the window included |
| BlockAckReordering.TimeAfterNear | rt3070/include/os/rt_linux.h:475-479 | for two points in time less than half the range apart, the comparison of their wrapped ticks is that of the times |
| BlockAckReordering.FlushByTicks | rt3070/common/ba_action.c:440-489 | with the ticks since the last in-order frame: up to 10, or with nothing held, nothing happens; beyond 10 one number is given up; beyond 50 with more than one frame held all go up and the session starts anew |
| BlockAckReordering.IdleByTicks | rt3070/common/ba_action.c:1167-1192 | the idle timer passes everything up exactly when more than 1000 ticks went by |
| BlockAckReordering.GivesUpOnSix | rt3070/common/ba_action.c:462-486 | waiting for 6 with 7 held, a late flush announces 7 and moves to it |
| BlockAckReordering.LengthLimit | rt3070/common/ba_action.c:1693-1698 | the first frame of a session is announced if and only if it is an A-MSDU or has at most 1520 bytes |
| BlockAckRefinement.CompareNear | rt3070/include/mlme.h:913-914 | the 12-bit comparison decides order and equality of the sender's own numbers within half the sequence space |
| BlockAckRefinement.LeMeaning | rt3070/common/ba_action.c:385-411 | on a sorted list, the flush up to a number passes up exactly the held frames up to it in order and leaves exactly those above |
| BlockAckRefinement.RunMeaning | rt3070/common/ba_action.c:351-383 | the in-order pass takes exactly the frames before the first gap and returns the number of the last |
| BlockAckRefinement.InsertMeaning | rt3070/common/ba_action.c:160-187 | sorted insertion refuses exactly the numbers already held, and otherwise keeps the order and adds that one frame |
| BlockAckRefinement.InOrderRefines | rt3070/common/ba_action.c:1757-1773 | case I is what the reference buffer does with the next number |
| BlockAckRefinement.KeepRefines | rt3070/common/ba_action.c:1793-1799 | case IV with a block is what the reference does with a frame inside the window |
| BlockAckRefinement.DropRefines | rt3070/common/ba_action.c:1643-1658 | case IV without a block agrees with the reference if and only if neither a copy nor the successor of the frame is held |
| BlockAckRefinement.SlideKeepRefines | rt3070/common/ba_action.c:1800-1826 | case V with a block slides the window exactly as far as the reference |
| BlockAckRefinement.SlideDropRefines | rt3070/common/ba_action.c:1800-1826 | case V without a block passes up everything held and then the frame, as the reference does |
| BlockAckRefinement.ReceiveRefines | rt3070/common/ba_action.c:1746-1826 | receiving any frame within half the sequence space agrees with the reference if and only if it is clean |
| BlockAckRefinement.TimeoutRefines | rt3070/common/ba_action.c:440-489 | at every tick the timeout flush, in all three branches, is the timeout of the reference |
| BlockAckRefinement.BarRefines | rt3070/common/ba_action.c:1431-1436 | a Block-Ack request agrees with the reference, which always moves to its start, if and only if the start is not held and, before the first frame, lies in the lower half of the 12-bit numbers |
| BlockAckRefinement.StepRefines | rt3070/common/ba_action.c:1680-1827 | from every related state, a step of the driver has the outcomes of the reference and stays related if and only if the event is clean |
| BlockAckOrder.RunRefines | rt3070/common/ba_action.c:1680-1827 | over every clean run the 12-bit driver and the unbounded buffer produce the same trace and stay related |
| BlockAckOrder.PunctualByTicks | rt3070/common/ba_action.c:463-465 | an event is early enough for the delivery theorems if and only if at most 10 ticks went by |
| BlockAckOrder.InOrderDelivery | rt3070/common/ba_action.c:1680-1827 | over every clean run of a new session the frames announced between two resets have strictly increasing sender numbers |
| BlockAckOrder.WindowAtRest | rt3070/common/ba_action.c:1641-1641 | after every clean run the list is sorted without duplicates, 2 to BAWinSize ahead of the last number, and shorter than the window |
| BlockAckOrder.WindowAssertion | rt3070/common/ba_action.c:1641-1641 | the driver's own assertion on the queue length holds at both calls that enqueue |
| BlockAckOrder.EveryFrameDelivered | rt3070/common/ba_action.c:1680-1827 | if every number up to the top arrives at least once, in any order and with duplicates but in time and within the window, exactly these numbers go up, each once and in order, across wrap-around, and nothing stays behind |
| BlockAckOrder.BarDuplicates | rt3070/common/ba_action.c:1431-1436 | a request whose start is held makes the same frame go up twice |
| BlockAckOrder.BarIgnored | rt3070/common/ba_action.c:1431-1436 | a request from the upper half of the numbers before the first frame is ignored, and a frame it gave up on goes up where the reference gives it back |
| BlockAckOrder.NoBlockDuplicates | rt3070/common/ba_action.c:1643-1658 | a second copy that finds no block goes up after the first |
| BlockAckDriver.MpduList.Enqueue | rt3070/common/ba_action.c:193-198 | the block becomes the first of the list, and the list stays well linked with its true length |
| BlockAckDriver.MpduList.Dequeue | rt3070/common/ba_action.c:203-220 | takes the first block and leaves the rest, null exactly for the empty list |
| BlockAckDriver.MpduList.InsertSortedBlock | rt3070/common/ba_action.c:160-187 | splicing the block in is sorted insertion on the frames, refused exactly for a duplicate, and no other block moves |
| BlockAckDriver.Adapter.constructor | rt3070/common/ba_action.c:278-321 | the pool starts with the given number of blocks, all free |
| BlockAckDriver.Adapter.IndicateLeSeq | rt3070/common/ba_action.c:385-411 | announces what the model says and returns the blocks to the pool, so that no block is gained or lost |
| BlockAckDriver.Adapter.IndicateInOrderFrom | rt3070/common/ba_action.c:351-383 | the loop on the linked list is the run of the model, its result the last number or RESET_RCV_SEQ if nothing went up |
| BlockAckDriver.Adapter.RefreshList | rt3070/common/ba_action.c:414-436 | everything goes up in list order, the list is empty and the session reset, with every block back in the pool |
| BlockAckDriver.Adapter.SkipOneMpdu | rt3070/common/ba_action.c:462-486 | gives up on one number and continues in order, as the model does |
| BlockAckDriver.Adapter.FlushTimeoutMpdus | rt3070/common/ba_action.c:440-489 | the linked list is flushed, advanced by one number or left alone exactly as the model says for that tick |
| BlockAckDriver.Adapter.EnqueueReorderingPacket | rt3070/common/ba_action.c:1601-1659 | the frame is stored, released or passed up as the model says, a block being found exactly when one is free, and a block is lost if and only if it was taken for an EAPOL frame |
| BlockAckDriver.Adapter.ReceiveBeyondWindow | rt3070/common/ba_action.c:1800-1826 | case V on the linked lists is case V of the model |
| BlockAckDriver.Adapter.ReceivePacket | rt3070/common/ba_action.c:1746-1826 | the five cases on the linked lists are those of the model, and a block is lost if and only if an EAPOL frame reaches the enqueue and takes one |
| BlockAckDriver.Adapter.IndicateAmpduPacket | rt3070/common/ba_action.c:1680-1827 | the whole receive path is that of the model, and free, buffered and lost blocks together stay the same |
| BlockAckDriver.Adapter.BlockAckRequestReceived | rt3070/common/ba_action.c:1431-1436 | a request on the linked list is a request on the model |
| BlockAckDriver.Adapter.IdleTimeoutFired | rt3070/common/ba_action.c:1180-1192 | the idle timer flushes the linked list exactly as the model says for that tick |
| BlockAckDriver.Adapter.HandleAll | rt3070/common/ba_action.c:1680-1827 | over every run of any number of sessions on one pool: no block is ever in two lists, in a list and free, or lost and in use; free, buffered and lost blocks together never change; none is lost if and only if no EAPOL frame takes one; and every session has the state and the outcomes of its own events alone |
| BlockAckDriver.Adapter.HandleFor | rt3070/common/ba_action.c:1708-1726 | an event of one session leaves the state of every other and the pool as a whole alone, and a frame with no session goes up at once |
| BlockAckDriver.Adapter.Open | rt3070/common/ba_action.c:735-769 | a new session with an empty list shares the pool with the others, none of them disturbed |
| BlockAckDriver.Adapter.PoolSize | rt3070/common/ba_action.c:278-348 | the lengths of the free list and of all session lists and the number of lost blocks add up to the size of the pool |
| BlockAckShared.SessionsAreIndependent | rt3070/common/ba_action.c:1708-1726 | whatever happens to other sessions in between, a session ends where its own events lead, with their outcomes |
| BlockAckSessions.OriTable.SetUp | rt3070/common/ba_action.c:496-570 | a session is opened exactly when it is allowed, new and a slot is free, never in slot 0, and nothing else changes |
| BlockAckSessions.OriTable.FindFree | rt3070/common/ba_action.c:771-803 | finds a free slot other than 0 exactly when the counter says there is one |
| BlockAckSessions.OriTable.Answered | rt3070/common/ba_action.c:572-637 | a response completes exactly a session that waits for one, with the agreed window and its bit set, and touches no other |
| BlockAckSessions.OriTable.Free | rt3070/common/ba_action.c:806-842 | slot, index and bitmap are cleared together, for no other session |
| BlockAckSessions.OriTable.TearDown | rt3070/common/ba_action.c:875-962 | the session is gone unless a DELBA was due and had no memory, and a DELBA is sent exactly when one is due |
| BlockAckSessions.OriTable.SetupTimeout | rt3070/common/ba_action.c:1083-1151 | resends below the retry limit, waits during a scan, and at the limit frees the slot after exactly seven requests |
| BlockAckSessions.OriTable.Unanswered | rt3070/common/ba_action.c:1083-1151 | in any run of other sessions' events and its own timeouts, put off by scans or not, a request nobody answers goes out once for every timeout that fires and is given up at the next one after exactly seven |
| BlockAckSessions.OriTable.Run | rt3070/common/ba_action.c:496-1151 | counter, index, bitmap, timers and slots agree over every run of set-ups, responses, teardowns and timeouts |
| BlockAckSessions.OriTable.Apply | rt3070/common/ba_action.c:496-1151 | an event changes no session it is not about, and a timeout resends, waits for the scan or gives up |
| BlockAckSessions.AgreedWindow | rt3070/common/ba_action.c:593-594 | the window is the smallest of the own one, the peer's taken as a byte, and what the rates allow |
| BlockAckSessions.LinkedNew | rt3070/common/ba_action.c:496-570 | opening a session in a free slot keeps index, slots and bitmap in step |
| BlockAckSessions.LinkedChange | rt3070/common/ba_action.c:572-637 | a change of status, token or timer keeps them in step |
| BlockAckSessions.LinkedFree | rt3070/common/ba_action.c:806-842 | freeing a slot removes exactly that session from index and bitmap |
| BlockAckSessions.RecTable.FindFree | rt3070/common/ba_action.c:735-769 | finds a free slot other than 0 exactly when the counter says there is one |
| BlockAckSessions.WindowFor | rt3070/common/ba_action.c:660-666 | a session gets the smaller of the size asked for, in eight bits, and the limit, or 64 if one of them is 0 |
| BlockAckSessions.RecTable.Add | rt3070/common/ba_action.c:640-732 | a request opens a session or renews the one there is, refused exactly when it is new and the table is full |
| BlockAckSessions.RecTable.TearDown | rt3070/common/ba_action.c:965-1052 | the session is gone unless a DELBA was due and had no memory |
| BlockAckSessions.RecLinkedSet | rt3070/common/ba_action.c:640-732 | opening or renewing a session keeps index, slots and bitmap in step |
| BlockAckSessions.RecLinkedFree | rt3070/common/ba_action.c:845-873 | freeing a slot removes exactly that session from index and bitmap |
| BlockAckSessions.TearDownAll | rt3070/common/ba_action.c:1055-1067 | with memory for the DELBAs no session of the station is left in either table, without it exactly those for which one is due, and no session of another station is touched |
| Stations.DropSessions | rt3070/common/cmm_data.c:1901-1945 | after the teardown and the zeroing of the entry nothing leads to a session of the station, and the tables are consistent if and only if there was memory for the DELBAs or none was due |
| Stations.DeleteStation | rt3070/common/cmm_data.c:1874-1972 | the entry and its sessions go exactly when slot and address fit together, with the same condition for consistency |
| MacTable.HashOfByte | rt3070/include/mlme.h:146-147 | an address with one byte set has that byte for its index, wherever it stands |
| MacTable.Table.Lookup | rt3070/common/cmm_data.c:1678-1698 | finds an entry with the address exactly when the table has one |
| MacTable.Table.Insert | rt3070/common/cmm_data.c:1701-1868 | takes a vacant slot if there is one, appends it to the chain of its hash and changes no other entry |
| MacTable.Table.Delete | rt3070/common/cmm_data.c:1874-1972 | removes the entry from its chain exactly when slot and address fit together, and otherwise changes nothing |
| MacTable.Table.Reset | rt3070/common/cmm_data.c:1982-2002 | no client is left, and whatever is not a client stays |
| MacTable.IndexedInsert | rt3070/common/cmm_data.c:1847-1862 | after the insertion every entry is still reachable from its bucket, once, in the old order |
| MacTable.IndexedDelete | rt3070/common/cmm_data.c:1906-1931 | after the deletion every other entry is still reachable from its bucket, once, in the old order |
| Deaggregation.Deaggregate | rt3070/common/cmm_data.c:1529-1638 | on every byte buffer it ends and announces what the format says, and the count is one more exactly when the bytes end in a subframe that cannot be announced |
| Deaggregation.DeaggregationExact | rt3070/common/cmm_data.c:1547-1637 | aggregated subframes come back exactly and in order if and only if their sizes fit |
| Michael.Rol17Bits | rt3070/common/cmm_tkip.c:41-43 | every bit moves up by 17 places around the word |
| Michael.Rol3Bits | rt3070/common/cmm_tkip.c:41-43 | every bit moves up by 3 places around the word |
| Michael.Ror2Bits | rt3070/common/cmm_tkip.c:41-43 | every bit moves down by 2 places around the word |
| Michael.XswapBytes | rt3070/common/cmm_tkip.c:282-282 | the bytes of each half word change places |
| Michael.XorByBits | rt3070/common/cmm_tkip.c:279-286 | a bit of the exclusive or is set exactly where the operands differ |
| MichaelVector.EmptyMessage | rt3070/common/cmm_tkip.c:269-363 | the empty message under the key of zeroes has the code 82 92 5c 1c a1 d1 30 b8 |
| Michael.BlockBijective | rt3070/common/cmm_tkip.c:282-292 | the block function is a bijection of the two halves for every word |
| Michael.BlockSeparates | rt3070/common/cmm_tkip.c:282-292 | from one state, different words lead to different states |
| Michael.MicSeparates | rt3070/common/cmm_tkip.c:345-363 | under one key, messages of one length that differ in one word have different codes |
| Michael.MicBytesSeparate | rt3070/common/cmm_tkip.c:345-363 | so do the eight bytes that are sent |
| Michael.KeyInfo.AppendByte | rt3070/common/cmm_tkip.c:269-296 | the state after the byte is the hash of all whole words so far with the rest pending |
| Michael.KeyInfo.Append | rt3070/common/cmm_tkip.c:314-325 | the result does not depend on how the message is cut into calls |
| Michael.KeyInfo.Pad | rt3070/common/cmm_tkip.c:348-358 | the padding is 0x5a, four zeroes and as many more as reach a word boundary |
| Michael.KeyInfo.GetMic | rt3070/common/cmm_tkip.c:345-363 | the streaming computation gives the code of the definition for every message |
| TkipMixing.WidePhase2Low | rt3070/common/cmm_tkip.c:638-659 | the 32-bit words that are never reduced keep the low halves of the 16-bit computation through every addition, rotation and S-box |
| TkipMixing.Rotr1Low | rt3070/common/cmm_tkip.c:576-589 | the rotation of an unreduced word is the 16-bit rotation in its low half |
| TkipMixing.SameBytes | rt3070/common/cmm_tkip.c:661-690 | the bytes taken from the wide words are those of the reduced words |
| TkipStandard.Xor16Bits | rt3070/common/cmm_tkip.c:630-635 | the exclusive or of the standard differs in a bit exactly where its operands do |
| TkipStandard.RotR1Bits | rt3070/common/cmm_tkip.c:576-589 | the rotation of the standard moves every bit down by one place around 16 bits |
| TkipStandard.MarkedBits | rt3070/common/cmm_tkip.c:669-669 | the second byte has bit 5 set, bit 7 clear and the other bits of the first |
| TkipStandard.SeedMeaning | rt3070/common/cmm_tkip.c:668-690 | bytes 0 and 2 of the key of the standard are the low counter, byte 1 its marked upper byte, byte 3 the check, and the other twelve are the six words PPK |
| TkipMixing.Phase1IsTtak | rt3070/common/cmm_tkip.c:619-636 | the rounds of the driver are once around the five words of the standard each, whatever the operation |
| TkipMixing.NarrowIsPpk | rt3070/common/cmm_tkip.c:638-659 | phase 2 in reduced words ends with the words PPK of the standard |
| TkipMixing.Phase1Reduced | rt3070/common/cmm_tkip.c:619-636 | phase 1 ends with the intermediate key of the standard, in words of 16 bits |
| TkipMixing.MixKey | rt3070/common/cmm_tkip.c:592-690 | the sixteen bytes are those of the standard, with the low counter, the marked byte, the check and the words PPK in their places, for every key, address, counter and S-box |
| JtagPort.TableArrives | ts7500ctl/ispvm.c:219-250 | every row of the table leads the IEEE 1149.1 TAP from its first state to its second, and shifts no bit but the one it leaves with |
| JtagPort.ResetLeads | ts7500ctl/ispvm.c:225-225 | the six pulses of the first row reset the TAP from every one of its sixteen states |
| JtagPort.BitAtIs | ts7500ctl/ispvm.c:2184-2184 | the bits of a byte go out from bit 7 down to bit 0 |
| JtagPort.BitsAreStream | ts7500ctl/ispvm.c:2171-2203 | the bits of a whole buffer are the stream the row decoder reads |
| JtagPort.ByteValue | ts7500ctl/ispvm.c:2238-2248 | the eight bits of a byte have its value |
| JtagPort.BitsSeparate | ts7500ctl/ispvm.c:2171-2203 | two buffers of one length go out alike if and only if they are equal |
| JtagEngine.Engine.SendSlow | ts7500ctl/ispvm.c:2171-2203 | the pins at every rising edge of TCK are the data bits, most significant first, the last one left on TDI unless the frame is cascaded |
| JtagEngine.Engine.SendFast | ts7500ctl/ispvm.c:2205-2256 | skipping writes and shifting the byte in place gives the same pins at every rising edge as the slow version |
| JtagEngine.SentShift | ts7500ctl/ispvm.c:2171-2203 | in a Shift state exactly the data bits enter the device |
| JtagEngine.Engine.Send | ts7500ctl/ispvm.c:2227-2256 | in a Shift state the bits shifted, together with the one left on TDI, are the data |
| JtagEngine.Engine.Read | ts7500ctl/ispvm.c:2267-2409 | shifts the data in like the send and counts the masked bits that came out wrong |
| JtagEngine.NoMismatch | ts7500ctl/ispvm.c:2366-2372 | the count is zero exactly when every masked bit came out as expected |
| JtagEngine.Engine.Transfer | ts7500ctl/ispvm.c:1451-1493 | a scan shifts the same bits whether it only sends or also compares, and the errors are those of the comparison |
| JtagEngine.Engine.Bypass | ts7500ctl/ispvm.c:2031-2079 | header or trailer bits are shifted with the last one left on TDI, and none for length zero |
| JtagEngine.Engine.FindRow | ts7500ctl/ispvm.c:2102-2106 | the first row for the transition, or past the table if there is none |
| JtagEngine.Engine.GoTo | ts7500ctl/ispvm.c:2092-2121 | the tracked state is the state of the TAP afterwards, and leaving a Shift state shifts exactly the bit left on TDI |
| JtagEngine.Engine.Start | ts7500ctl/ispvm.c:2131-2139 | from whatever state the TAP is found in, the engine and the TAP are in step afterwards |
| JtagEngine.Engine.Sir | ts7500ctl/ispvm.c:1364-1513 | for sending and for verifying scans, the bits clocked while the TAP shifts are header, data and trailer, one stray bit before them exactly for a whole scan from SHIFTIR, the end state is reached and the errors counted |
| JtagEngine.Engine.Sdr | ts7500ctl/ispvm.c:1380-1523 | the same for SDR, where a frame that continues a cascade has no header and one that is continued no trailer |
| JtagEngine.Engine.SdrCascade | ts7500ctl/ispvm.c:1380-1523 | a cascade from DRPAUSE, of frames that send or verify, shifts one header, the data of all frames and one trailer, and counts the errors of all frames |
| RowDecoder.Number | ts7500ctl/ispvm.c:420-433 | reads the number the format puts at the front and leaves the rest of the stream |
| RowDecoder.NumberRoundTrip | ts7500ctl/ispvm.c:420-433 | decoding inverts encoding for every number, whatever follows |
| RowDecoder.RunsRow | ts7500ctl/ispvm.c:1317-1335 | the byte loop decodes runs of the key byte and leaves the rest of the stream |
| RowDecoder.RunsRoundTrip | ts7500ctl/ispvm.c:1317-1335 | every row shorter than 65536 bytes comes back, whatever follows |
| RowDecoder.KeyedRow | ts7500ctl/ispvm.c:1259-1285 | the bit loop across byte boundaries decodes the keyed code and leaves the stream at the first byte it has not begun |
| RowDecoder.KeyedRoundTrip | ts7500ctl/ispvm.c:1259-1285 | every row comes back under every key, and exactly what follows it is left of the stream |
| RowDecoder.NibbleRow | ts7500ctl/ispvm.c:1286-1310 | the nested loops write each nibble of the block at every multiple of the block, leave the rest zero, and take exactly the bytes of the block from the stream |
| RowDecoder.BlockRoundTrip | ts7500ctl/ispvm.c:1286-1310 | a row of repeated blocks comes back if and only if what lies beyond the last whole block is zero, and exactly what follows the block is left |
| TsipFraming.LookUpEncoded | gps_time/trimble_lassen_iq/gps_time.c:173-235 | a message is found as it was sent, whatever follows it, if and only if its id is not ETX |
| TsipFraming.RoundTrip | gps_time/trimble_lassen_iq/gps_time.c:173-235 | decoding inverts encoding for every list of messages |
| TsipFraming.FrameExample | gps_time/trimble_lassen_iq/gps_time.c:173-235 | a message with both framing bytes in its data, byte by byte |
| TsipFraming.LookUpExtends | gps_time/trimble_lassen_iq/gps_time.c:173-235 | more bytes never change a packet or a failure that has been found |
| TsipFraming.DrainExtends | gps_time/trimble_lassen_iq/gps_time.c:388-407 | for every byte stream, draining early and again after more bytes is draining once |
| TsipFraming.RunKeepsOutlook | gps_time/trimble_lassen_iq/gps_time.c:388-407 | no interleaving of feeding and looking changes the messages that come out in the end |
| TsipFraming.DeliversExactly | gps_time/trimble_lassen_iq/gps_time.c:388-407 | however the messages are cut into chunks and whenever the thread looks, once all is fed exactly the messages sent have been handled, in order |
| TsipFraming.HandledIsPrefix | gps_time/trimble_lassen_iq/gps_time.c:388-407 | at any moment the messages handled are a prefix of those sent, and the program has no reason to quit |
| TsipReceiver.GpsReceiver.OutputFromGps | gps_time/trimble_lassen_iq/gps_time.c:275-295 | appends the bytes across the wrap exactly when one position stays free, and otherwise changes nothing |
| TsipReceiver.GpsReceiver.FindEnd | gps_time/trimble_lassen_iq/gps_time.c:198-210 | finds the first ETX after an odd run of DLEs in the wrapped data |
| TsipReceiver.GpsReceiver.UnstuffInPlace | gps_time/trimble_lassen_iq/gps_time.c:215-232 | the backward loop on the ring is the loop on the linear data |
| TsipReceiver.ShiftBackMeaning | gps_time/trimble_lassen_iq/gps_time.c:215-232 | moving bytes up in place never overwrites one that is still to be read, so the result is the unescaped data and what follows the packet stays |
| TsipReceiver.GpsReceiver.LookupPacket | gps_time/trimble_lassen_iq/gps_time.c:173-235 | the ring code finds what the framing model finds, with the message between start and end and the data behind it untouched |
| TsipReceiver.GpsReceiver.Poll | gps_time/trimble_lassen_iq/gps_time.c:388-407 | the message found is handed over and exactly its bytes leave the buffer |
| TsipReceiver.GpsReceiver.Serve | gps_time/trimble_lassen_iq/gps_time.c:388-407 | every interleaving of the two threads on the ring is the run of the framing model |
| SampleRing.RunKeepsInv | interruption/proc_entry.c:55-133 | whichever step of the reader the interrupt hits, the ring invariant holds as long as at most 1023 samples wait |
| SampleRing.ReadsArePrefix | interruption/proc_entry.c:55-133 | everything read is a prefix of everything written, with no loss, duplicate or reordering, over every interrupted run |
| SampleRing.LateWrapIsHarmless | interruption/proc_entry.c:75-102 | a wrap between the order test and the subtraction makes the allocation fail and leaves the reader where it was |
| SampleRing.ReachesCount | interruption/proc_entry.c:73-80 | with a sample waiting, three steps of the reader lead to the count, whatever interrupts them |
| SampleRing.CallReads | interruption/proc_entry.c:75-104 | a call that gets its allocation has then read exactly what was written when it took the count, whatever interrupts it |
| SampleRing.LateCall | interruption/proc_entry.c:75-102 | after a late wrap the call ends without reading, whatever interrupts it |
| SampleRing.WholeCall | interruption/proc_entry.c:55-115 | a call interrupted anywhere reads everything written before its count, or nothing exactly after a late wrap |
| SampleRing.QuietCall | interruption/proc_entry.c:55-115 | an uninterrupted call reads everything written and ends after six steps and one for each sample |
| SampleRing.ReadAtOnceExact | interruption/proc_entry.c:55-115 | an uninterrupted read returns exactly what is unread if and only if at most 1023 samples wait |
| SampleRing.Device.WriteToBuffer | interruption/proc_entry.c:120-133 | the write is that of the model, and positions and samples stay in step |
| SampleRing.Device.CopySlots | interruption/proc_entry.c:97-101 | copies the slots behind the last read one in order, across the wrap |
| SampleRing.Device.ReadNSamples | interruption/proc_entry.c:55-115 | if the allocation succeeds, returns the samples of the model and, if at most 1023 waited, has then read everything written; if it fails, nothing changes |
| KernelList.KList.Add | fred_framework/klist.c:64-73 | the node becomes the last, with the links in both directions |
| KernelList.KList.InsertBefore | fred_framework/klist.c:222-231 | the node stands right before the current one, with the links in both directions |
| KernelList.KList.Remove | fred_framework/klist.c:79-106 | exactly that node is gone, wherever it stood, with the links in both directions |
| FilterChains.RegisterSorted | fred_framework/chains.c:76-101 | a chain stays in descending order of priority |
| FilterChains.RegisterStable | fred_framework/chains.c:76-101 | filters of equal priority keep the order of registration, and no other priority changes |
| FilterChains.RegisterLength | fred_framework/chains.c:76-101 | a chain takes a filter if and only if it holds fewer than ten |
| FilterChains.Chain.RegisterFilter | fred_framework/chains.c:76-101 | on the linked list the filter goes where the model puts it, refused exactly when the chain is full |
| FilterChains.Chain.UnregisterFilter | fred_framework/chains.c:32-46 | takes the filter out of the linked list if it is there and changes nothing else |
| FilterChains.UnregisterTimes | fred_framework/chains.c:32-46 | removes one occurrence of that filter and none of another |
| FilterChains.RuleRoundTrip | fred_framework/rule.c:25-35 | registering the filters of a rule, whether all fit or not, and unregistering them leaves every chain exactly as it was |
| FilterChains.RegisterAllExact | fred_framework/rule_manager.c:42-46 | after a rule every chain holds what it held and, once each, the filters of the rule that are meant for it and find room |
| FilterChains.RegisterAllSorted | fred_framework/rule_manager.c:42-46 | a rule keeps every chain in descending order of priority |
| FilterChains.RuleManager.RegisterRule | fred_framework/rule_manager.c:34-50 | the rule is listed last and its filters are registered in turn |
| FilterChains.RuleManager.UnregisterRule | fred_framework/rule_manager.c:71-89 | the first rule with the id and its filters are removed, and nothing changes if there is none |
| RuleRegistry.Scan | fred_framework/proc_registry.c:44-45 | a field is the text before the next colon or zero, and there is none if the buffer ends first |
| RuleRegistry.ParseRequest | fred_framework/proc_registry.c:42-116 | on every buffer the parser reads the fields as the format defines them, with the flag of each field that is there, unless a scan leaves the buffer or a field its array |
| RuleRegistry.ParseInvertsLine | fred_framework/interceptor_shell/operations.c:23-111 | the kernel reads back exactly what was written, each field if and only if it was given, exactly when the name is not empty, has no colon, and leaves a zero at the end of the buffer |
| RuleRegistry.LineExample | fred_framework/interceptor_shell/operations.c:23-111 | a request for UDP with two addresses and a port, character by character |
| RuleRegistry.TextsFit | fred_framework/proc_registry.c:35-35 | every field of a line fits the array it is copied to, terminator included |
| RuleRegistry.FieldLimits | fred_framework/proc_registry.c:35-35 | the parser stays within its arrays if and only if the fields have at most 3, 15, 15, 5 and 5 characters |
| RuleRegistry.LongestName | fred_framework/interceptor_shell/operations.c:26-40 | a rule with nothing but a name is read back exactly up to 792 characters |
| Checksum.Csum | fred_framework/interceptors/utils.h:23-31 | the loop and the two folds compute the sum modulo 2^32, folded and complemented |
| Checksum.CodeIsComplement | fred_framework/interceptors/utils.h:23-31 | for up to 65537 words the result is the complement of the one's-complement sum |
| Checksum.LimitIsExact | fred_framework/interceptors/utils.h:23-31 | for every larger size some buffer has another result |
| Checksum.OrderDoesNotMatter | fred_framework/interceptors/utils.h:23-31 | the checksum depends only on the multiset of words |
| Checksum.StoredChecksumVerifies | fred_framework/interceptors/utils.h:23-31 | a buffer whose zeroed word is replaced by the checksum sums up to zero |

## Left out

- BlockAckRefinement.StepRefines: the sender's number is within half the sequence space of the receiver, without which 12 bits cannot decide anything.
- BlockAckDriver.Adapter.IndicateAmpduPacket: the nested timeout flush of Indicate_Legacy_Packet (rt3070/common/cmm_data.c:2308-2333) is taken to find nothing due, since it runs right after the first one; a client beyond the table is not modelled.
- BlockAckDriver.Adapter.HandleFor: a Block-Ack request for a station without a session, for which the driver looks at the unused slot 0.
- BlockAckDriver.Adapter.constructor: running out of memory while the pool is built, and ba_reordering_resource_release.
- BlockAckSessions.OriTable.SetUp: TIDs of 8 and more, for which the arrays of the driver have no room, and building of the action frames.
- BlockAckSessions.OriTable.Answered: TIDs of 8 and more, as in SetUp, and the sending of the first Block-Ack request.
- BlockAckSessions.OriTable.TearDown: TIDs of 8 and more, as in SetUp.
- BlockAckSessions.RecTable.Add: TIDs of 8 and more, and the flush of the reordering list when a session is renewed, which is BlockAckDriver.Adapter.RefreshList.
- BlockAckSessions.RecTable.TearDown: the flush of the reordering list and the reset of its number, which is BlockAckDriver.Adapter.RefreshList.
- BlockAckReordering.RunConserves: the tick rate is fixed at 100 per second; tick counters wrap at 32 bits.
- Spin locks: each operation of a session is one atomic step.
- Deaggregation.Deaggregate: the conversion of LLC headers, the report of EAPOL frames and a failing copy of the packet.
- MacTable.Table.Insert: the fields of an entry other than its kind, address and chain.
- MacTable.Table.Delete: the Block-Ack sessions of the entry, which Stations.DeleteStation adds.
- Stations.DeleteStation: the association number of a station is taken to be its table slot.
- Michael.KeyInfo.AppendByte: the byte is added into the word where the driver ORs it into zero bits.
- TkipMixing.MixKey: the S-box is any function on integers, not the table of the driver. RC4 and CCMP are left out.
- JtagEngine.Engine.GoTo: transitions the table does not have, where the driver reads past it.
- JtagEngine.Engine.Read: the display of data when the mask is zero; a missing mask is all ones and missing TDI data all zeroes.
- JtagEngine.Engine.Sir: scans of length zero, scans with DMASK data, the retry for another vendor, flow control other than CASCADE, loops, delays and LVDS pairs.
- JtagEngine.Engine.Sdr: what is left out of JtagEngine.Engine.Sir, and copying the data sent to the buffer of expected data.
- JtagEngine.Engine.SdrCascade: what is left out of JtagEngine.Engine.Sdr.
- RowDecoder.Number: the 32-bit accumulator, in which numbers of more than 32 bits are cut off.
- RowDecoder.NumberRoundTrip: holds in the driver for numbers of up to 31 bits.
- RowDecoder.RunsRow: rows taken from the heap, and the end of the file inside a row.
- RowDecoder.KeyedRow: the end of the file inside a row.
- RowDecoder.NibbleRow: the end of the file inside a block.
- TsipReceiver.GpsReceiver.Poll: the meaning of the messages, the query handshake, and bytes that arrive before initialisation.
- SampleRing.ReadsArePrefix: an allocation of more than 4 MB is taken to fail, which is the limit of kmalloc; a write of one sample is one step.
- FilterChains.RuleManager.RegisterRule: at the level of rules the chains are sequences; the linked list is proved chain by chain.
- FilterChains.RuleManager.UnregisterRule: chains are sequences, as in RegisterRule. Removing all rules of an interceptor is not modelled.
- KernelList.KList.Add: iterators exist only as the positions they stand for; memory is always found.
- RuleRegistry.ParseRequest: requests to remove a rule; what is read beyond a buffer or an array; clearing `port_s` one byte beyond its end between the two ports.
- RuleRegistry.ParseInvertsLine: protocol names other than the three that are known.
- Packet matching in hooks.c, the NMEA receiver, the USB transmit rings, the FPGA and radio registers, and all user-space senders.
