# tcluvc, verified in Dafny

A model, in Dafny 4.11, of the stateful cores of tcluvc (a Tcl extension for USB video cameras) and of the libuvc it
carries, with proofs of what they promise. `dafny verify dfyconfig.toml` checks everything.

| file | what it models |
|---|---|
| `PayloadStream.dfy` | USB payloads glued into frames, double buffering (`libuvc/src/stream.c`) |
| `FrameDelivery.dfy` | handing frames to a callback thread or a poller, over every interleaving; the JPEG end marker |
| `TransferPool.dfy` | submit, callback, cancel, wait and free of any number of transfers |
| `AltSetting.dfy` | the choice of the isochronous alternate setting and of the transfer size |
| `ListSort.dfy`, `DlList.dfy` | the list macros of `libuvc/include/utlist.h` on real nodes, and the nested teardown of `libuvc/src/device.c` |
| `Descriptors.dfy` | the VideoStreaming descriptor walk (`libuvc/src/device.c`) |
| `PixelConvert.dfy` | the four YUV conversion loops (`libuvc/src/frame.c`) |
| `AviFormat.dfy`, `AviWriter.dfy` | the segmented AVI files of `tcluvc.c`: layout and independent reader; the recorder on a seekable channel |
| `RateLimiter.dfy` | the recording timer of `tcluvc.c` |
| `Mailbox.dfy` | the one-slot frame mailbox between the libuvc thread and the Tcl thread, with its wake-up events |
| `Geometry.dfy` | rotating and mirroring an image by pointer, pixel size and pitch |
| `ControlCodec.dfy` | the text form of device controls |
| `Bytes.dfy` | bytes and little-endian words |

Code that changes things in place is modelled by classes, arrays and loops (`StreamHandle`, `Receiver`,
`TransferArrays`, `Device`, `Recorder`, `Channel`, `Limiter`, `DlList`, the sort on `Node`s). Each such method is proved
against a function on values (`Process`, `Step`, `Apply`, `Pass`, `ParseAll`, `Stored`, ...), and the promises are
proved of these functions over whole runs. Threads are modelled as atomic steps, each one the code between a lock and the
matching unlock, in every order.

## Where the code falls short

Each of these is stated with the exact condition under which the code does what it should, and with an input on which it
does not.

- The first frame of a session has number 0, and both the callback thread and the poller start with "0 seen". The poller
  never gets frame number 0 (`FrameDelivery.ZeroNeverPolled`); the callback can get it exactly when the session starts
  with another number held, which a session on a new handle does not (`FrameDelivery.ZeroCalledIff`).
- `uvc_stream_start` resets the sequence number but not the held frame. A second session on a handle therefore delivers
  increasing numbers to the callback, in all interleavings, exactly when the first has published no more than one frame
  (`FrameDelivery.SecondSessionIncreasing`; `FrameDelivery.StaleRunReached` is a run from a fresh handle that ends with
  number 1 and then number 0), and the callback gets nothing but frames of its own session exactly when number 0 is held
  at the start (`FrameDelivery.CalledAsPublishedIff`).
- `last_polled_seq` is not reset. Polled numbers therefore increase always and are above the last number polled before
  (`FrameDelivery.PollIncreasing`), but the frame that is handed out can be the one held from the session before: the
  poller gets nothing but frames of its own session exactly when the number held at the start is not above the last one
  polled (`FrameDelivery.PolledAsPublishedIff`, with the run `FrameDelivery.OldFramePolled`).
- `uvc_stream_start` resets the frame ID but not the pending data. After a restart every frame keeps to one frame ID, for
  all payloads, exactly when no data is pending under frame ID 1 (`PayloadStream.RestartedGood`, with
  `PayloadStream.RestartMixesReached`), and the frames hold nothing but data of the new session exactly when no data is
  pending at all (`PayloadStream.RestartedContent`).
- An end-of-frame bit on a payload without data is ignored (`PayloadStream.DataBoundary` says exactly when a frame is
  closed).
- A stream can be stopped, with all its transfers released and no time-out, exactly when `running` is still set
  (`TransferPool.ReleasedIff`). A callback with NO_DEVICE before the stop clears it, and nothing is ever released after that
  (`TransferPool.NeverReleased`, `TransferPool.DeviceLostStopsNothing`). If cancelling answers nothing but success or
  NOT_FOUND, the condition is that `running` is set and every transfer that is waited for is in flight
  (`TransferPool.OrdinarilyReleasedIff`); a first submission that fails breaks it, and with such answers the stop can only
  time out (`TransferPool.FailedStart`, `TransferPool.Stuck`).
- An empty value list sets the first item of a control to 0 (`ControlCodec.EmptyListClearsFirst`). A printed list of m
  items leaves the later items alone exactly when m > 0, or there are no items, or the first is 0 already
  (`ControlCodec.LaterItemsKeptIff`).
- For an MJPEG format `bmFlags` shares its byte with `bBitsPerPixel`, which is cleared after it: the flags come through
  exactly when they are 0 (`Descriptors.FlagsKept`, `Descriptors.FlagsLost`).
- The unrolled conversion loops run to the end of the output in steps of eight pixels. With an input of exactly the size of
  its image they write and read inside the buffers exactly when the number of pixels is a multiple of 8 and the output,
  if the caller owns it, is not larger than the image (`PixelConvert.RoomyIff`, `PixelConvert.LoopStaysInside`;
  `PixelConvert.LoopOverruns` is a 2 x 2 image, `PixelConvert.LargerOutputOverruns` an 8 x 1 image with an output of 48
  bytes).
- Rotation angles are rounded to the nearest multiple of 90 exactly when they are not negative or within half a quarter
  turn of 0, because `%` truncates in `DataToPhoto` (`Geometry.NormalizedNearest`; -90 becomes 0, `Geometry.QuarterBackLost`).
- The interval that StartRecording computes is the frame time exactly for rates above one frame a second; for slower
  rates the whole seconds count twice (`RateLimiter.IntervalIsFrameTime`, `RateLimiter.OneFrameASecond`).
- The size field of the first RIFF chunk is 4 bytes short in every finished file (`AviWriter.Recorder.Finish`).

## Model

| member | source | states |
|---|---|---|
| `Bytes.Le32RoundTrip` | tcluvc.c:100-106 | the four little-endian bytes of an integer read back as its low 32 bits |
| `Bytes.Le32Injective` | tcluvc.c:100-106 | any four bytes are the little-endian bytes of the value they are read as |
| `Bytes.CopyBytes` | libuvc/src/stream.c:584 | a copy fills exactly its target range with the source range and leaves the rest of the buffer alone |
| `PayloadStream.PayloadBack` | libuvc/src/stream.c:531-584 | a payload serialised as section 2.4.3.3 of the USB Device Class Definition for Video Devices 1.5 says is parsed back: frame ID, end of frame, PTS, SCR and data, whatever the other bits say |
| `PayloadStream.BadHeaderSkipped` | libuvc/src/stream.c:559-564 | the same payload with the error bit set says nothing |
| `PayloadStream.ShortAndBogusHeaders` | libuvc/src/stream.c:538-554 | a length byte below 2 means data without header, one beyond the payload means nothing |
| `PayloadStream.ISightHeaderBack` | libuvc/src/stream.c:526-549 | an iSight packet with its tag at byte 2 or 3 is a header without data |
| `PayloadStream.ISightDataBack` | libuvc/src/stream.c:531-536 | an iSight packet without the tag is data throughout |
| `PayloadStream.RunContent` | libuvc/src/stream.c:504-592 | for every payload sequence, published frames followed by the pending bytes are the data of all accepted payloads, in order |
| `PayloadStream.RunGood` | libuvc/src/stream.c:474-592 | over every run no published frame is empty, all headers of one frame agree on the frame ID, none but the last payload ends it, and frames are numbered 0, 1, ... modulo 2^32 |
| `PayloadStream.ProcessNumbered` | libuvc/src/stream.c:474-492 | numbering and the held frame stay right for any handle, fresh or restarted |
| `PayloadStream.HeadBoundary` | libuvc/src/stream.c:560-581 | a header closes the pending frame if and only if it flips the frame ID and there is data; the frame gets its parts, number and time stamps, and the header's own stamps are kept for the next |
| `PayloadStream.DataBoundary` | libuvc/src/stream.c:583-591 | a payload closes the frame it completes if and only if it has data and its header has the end-of-frame bit; the frame gets the data, number and time stamps |
| `PayloadStream.RestartedGood` | libuvc/src/stream.c:862-866 | for a handle started again: every frame of every run keeps to one frame ID if and only if no data is pending under frame ID 1 |
| `PayloadStream.RestartedContent` | libuvc/src/stream.c:862-866 | the frames and pending bytes of the new session are its own data, for all payloads, if and only if no data is pending at the restart |
| `PayloadStream.RestartedMixes` | libuvc/src/stream.c:862-866 | otherwise pending data and the first data of the new session become one frame with both frame IDs |
| `PayloadStream.RestartMixesReached` | libuvc/src/stream.c:862-866 | a fresh handle reaches such a restart with one payload |
| `PayloadStream.StreamHandle.constructor` | libuvc/src/stream.c:786-807 | a fresh handle has two different buffers of 16 MiB and stands for the empty machine |
| `PayloadStream.StreamHandle.Restart` | libuvc/src/stream.c:862-866 | number, frame ID and time stamps are reset; held frame and pending data stay |
| `PayloadStream.StreamHandle.SwapBuffers` | libuvc/src/stream.c:474-492 | the pending bytes become the held ones with their number and time stamps; the two buffers are exchanged and stay distinct |
| `PayloadStream.StreamHandle.FlipFrame` | libuvc/src/stream.c:564-571 | the frame-ID check on the buffers does what `Flip` does on values |
| `PayloadStream.StreamHandle.ReadHeader` | libuvc/src/stream.c:553-581 | frame ID, PTS and SCR are read from the places the flags say |
| `PayloadStream.StreamHandle.AppendData` | libuvc/src/stream.c:583-591 | the data lands behind the pending bytes, inside the buffer, and the frame is published if it ends |
| `PayloadStream.StreamHandle.Extent` | libuvc/src/stream.c:531-551 | header and data length, with the iSight tag at offset 2 or 3, and refusal of a header longer than the payload |
| `PayloadStream.StreamHandle.ProcessPayload` | libuvc/src/stream.c:504-592 | on the real buffers, processing a payload is exactly one step of the machine on its parsed form |
| `PayloadStream.ReceivePackets` | libuvc/src/stream.c:609-636 | the loop over the packets of a transfer processes exactly the good, non-empty ones, in order, on the real buffers |
| `PayloadStream.PacketsApart` | libuvc/src/stream.c:618-635 | a good packet with data contributes its payload, a bad or empty one nothing, and packets are taken one after another |
| `FrameDelivery.RepairMarks` | libuvc/src/stream.c:1179-1196 | the image is the held bytes plus 0 to 2 bytes, ends in FF D9 if and only if there were at least 2 bytes and not a D9 without FF, is the shortest that does, and repairing again adds nothing |
| `FrameDelivery.ImageShows` | libuvc/src/stream.c:1173-1196 | what is handed out begins with the frame's data, and is just that unless it is MJPEG |
| `FrameDelivery.NewestCalled` | libuvc/src/stream.c:1095-1121 | delivery: after any interleaving, a turn of the callback thread leaves the newest frame as the last one called |
| `FrameDelivery.NewestPolledIff` | libuvc/src/stream.c:1222-1278 | delivery: after any interleaving, a look at the handle leaves the newest frame as the last one polled if and only if its number is above the last one polled before the session |
| `FrameDelivery.StreamRuns` | libuvc/src/stream.c:602-681 | in every interleaving the stream processes exactly the payloads that arrive before the stop, in order |
| `FrameDelivery.StoppedSilent` | libuvc/src/stream.c:1107-1110 | after the stop nothing is processed and the callback is not called |
| `FrameDelivery.CallbackFaithful` | libuvc/src/stream.c:1095-1278 | in every interleaving of a session that starts with number 0 held, callback and poller get strictly increasing numbers and under each exactly the bytes published under it |
| `FrameDelivery.FirstFrameNotCalled` | libuvc/src/stream.c:1098-1105 | in a session that starts with number 0 held, frame number 0 is never handed to the callback |
| `FrameDelivery.ZeroCalledIff` | libuvc/src/stream.c:1098-1112 | for any start, frame number 0 can reach the callback if and only if another number is held |
| `FrameDelivery.ZeroNeverPolled` | libuvc/src/stream.c:1222-1278 | for any start, frame number 0 is never polled |
| `FrameDelivery.CalledAsPublishedIff` | libuvc/src/stream.c:1095-1121 | for any start, the callback gets only frames of its session, under their numbers and byte for byte, in all interleavings, if and only if number 0 is held |
| `FrameDelivery.PolledAsPublishedIff` | libuvc/src/stream.c:1222-1278 | for any start, the poller gets only frames of its session, byte for byte, in all interleavings, if and only if the held number is not above the last one polled |
| `FrameDelivery.OldFramePolled` | libuvc/src/stream.c:1222-1225 | the run in which a restarted handle hands the poller a frame of the old session |
| `FrameDelivery.StaleRunDecreases` | libuvc/src/stream.c:1098-1112 | from any start with another number held, three steps deliver a smaller number after a larger one |
| `FrameDelivery.CallbackIncreasing` | libuvc/src/stream.c:1098-1112 | the callback's numbers increase in all interleavings if and only if the session starts with number 0 held |
| `FrameDelivery.RestartKeeps` | libuvc/src/stream.c:862-866 | a restart keeps the held frame, the pending data and the last number polled, and resets the rest |
| `FrameDelivery.RestartHolds` | libuvc/src/stream.c:862-866 | a second session starts with number 0 held if and only if the first has published at most one frame |
| `FrameDelivery.SecondSessionIncreasing` | libuvc/src/stream.c:862-866 | exactly then the second session's callback numbers increase in all interleavings |
| `FrameDelivery.StaleRunReached` | libuvc/src/stream.c:862-866 | two frames, a stop and a restart lead from a fresh handle to decreasing numbers |
| `FrameDelivery.PollIncreasing` | libuvc/src/stream.c:1222-1278 | polled numbers increase in every interleaving, from any start, and are all above the last number polled before |
| `FrameDelivery.UserFrame.Reserve` | libuvc/src/stream.c:1174-1176 | after the reallocation the allocation has room for the frame and the marker bytes |
| `FrameDelivery.UserFrame.CompleteMarker` | libuvc/src/stream.c:1179-1196 | the in-place repair stays inside the allocation and computes `Repair` |
| `FrameDelivery.UserFrame.Populate` | libuvc/src/stream.c:1162-1196 | whatever was in the frame before, it then holds exactly the held bytes, repaired for MJPEG, under the held number |
| `FrameDelivery.Receiver.constructor` | libuvc/src/stream.c:786-824 | a started fresh handle holds number 0 |
| `FrameDelivery.Receiver.Restart` | libuvc/src/stream.c:857-866 | starting a stopped handle again is the step `StartedAgain` on the system |
| `FrameDelivery.Receiver.Arrive` | libuvc/src/stream.c:609-633 | a packet changes the system as the step `Arrives` says; after `running` is cleared it changes nothing |
| `FrameDelivery.Receiver.TakeTurn` | libuvc/src/stream.c:1101-1115 | one turn of the callback thread is the step `CallerTurn`, and the callback gets exactly the frame and number recorded there |
| `FrameDelivery.Receiver.TryGetFrame` | libuvc/src/stream.c:1222-1225 | one look at the held frame is the step `Poll`, and the poller gets exactly the frame recorded there |
| `FrameDelivery.Receiver.ClearRunning` | libuvc/src/stream.c:1317-1320 | only `running` changes |
| `TransferPool.RunGood` | libuvc/src/stream.c:602-1380 | over every run in which no stop times out, a transfer in flight is neither flagged nor freed, and none is freed twice |
| `TransferPool.StreamsOn` | libuvc/src/stream.c:602-681 | over every run of submissions that succeed and callbacks for data or passing trouble, all transfers submitted so far stay in flight |
| `TransferPool.LeavesFlightIff` | libuvc/src/stream.c:609-676 | for each status and answer, exactly when a callback takes its transfer out of flight |
| `TransferPool.CallbackAfterStop` | libuvc/src/stream.c:609-680 | once `running` is cleared, a callback never resubmits and leaves exactly one transfer less to wait for |
| `TransferPool.NothingResubmitted` | libuvc/src/stream.c:1317-1380 | after that no event at all puts a transfer in flight |
| `TransferPool.OutstandingZero` | libuvc/src/stream.c:1353-1358 | nothing is outstanding if and only if the wait loop's scan finds nothing |
| `TransferPool.WaitIsBounded` | libuvc/src/stream.c:1327-1364 | between the clearing of `running` and the freeing there are at most as many callbacks as transfers outstanding |
| `TransferPool.StopReleasesAll` | libuvc/src/stream.c:1310-1380 | a stop that does not time out has freed every transfer exactly once, out of flight, and nothing can happen after it |
| `TransferPool.ReleasedIff` | libuvc/src/stream.c:1310-1380 | some run stops the stream and releases everything without a time-out if and only if `running` is set |
| `TransferPool.OrdinarilyReleasedIff` | libuvc/src/stream.c:1310-1380 | when cancelling answers nothing but success or NOT_FOUND, that is so if and only if `running` is set and every waited-for transfer is in flight |
| `TransferPool.ReleasesAll` | libuvc/src/stream.c:1366-1373 | every such run has freed every transfer exactly once, out of flight |
| `TransferPool.StopEnds` | libuvc/src/stream.c:1317-1373 | the run itself: clear, cancel, one callback for each transfer in flight, free; an error from cancelling is needed only for transfers not in flight |
| `TransferPool.WaitEnds` | libuvc/src/stream.c:1351-1364 | a stop that waits can end, by the callbacks of the transfers in flight |
| `TransferPool.NeverReleased` | libuvc/src/stream.c:1314-1315 | once `running` is cleared without a stop, no run frees any transfer |
| `TransferPool.Stuck` | libuvc/src/stream.c:1351-1364 | when cancelling answers nothing but success or NOT_FOUND, a waited-for transfer that is not in flight keeps every stop from ending other than by time-out |
| `TransferPool.RunLive` | libuvc/src/stream.c:1044-1060 | over every run whose first submission succeeds, all waited-for transfers are in flight |
| `TransferPool.FailedStart` | libuvc/src/stream.c:1044-1060 | when the first submission fails, the stream counts as running with waited-for transfers that are not in flight |
| `TransferPool.DeviceLostStopsNothing` | libuvc/src/stream.c:639-640 | the run by which a stop after NO_DEVICE leaves a transfer in flight |
| `TransferPool.TransferArrays.constructor` | libuvc/src/stream.c:1002-1030 | any number of fresh transfers, none flagged or in flight: an initial pool |
| `TransferPool.TransferArrays.SubmitNext` | libuvc/src/stream.c:1044-1060 | one submission; when it fails after others have succeeded, exactly the transfers not submitted are freed |
| `TransferPool.TransferArrays.FreeRest` | libuvc/src/stream.c:1053-1058 | the rest of the transfers is freed, each once |
| `TransferPool.TransferArrays.Stop` | libuvc/src/stream.c:1317-1320 | `running` is cleared and nothing else |
| `TransferPool.TransferArrays.MarkDeleted` | libuvc/src/stream.c:645-656 | the flag that is set is the one of this transfer, and no other |
| `TransferPool.TransferArrays.StreamCallback` | libuvc/src/stream.c:602-681 | for every transfer status the callback does what the pool's step says |
| `TransferPool.TransferArrays.CancelTransfers` | libuvc/src/stream.c:1329-1336 | the cancel loop flags exactly the transfers whose cancel error says they are not in flight |
| `TransferPool.TransferArrays.NoneOutstanding` | libuvc/src/stream.c:1353-1358 | true if and only if every present transfer is flagged |
| `TransferPool.TransferArrays.FreeTransfers` | libuvc/src/stream.c:1366-1373 | every present transfer is freed once and its slot cleared |
| `AltSetting.DecodedBack` | libuvc/src/stream.c:919-922 | a packet size and its multiplier are taken apart again, whatever the unused bits say |
| `AltSetting.PacketSizeFirst` | libuvc/src/stream.c:913-925 | the first endpoint with the address counts, and without one the size is 0 |
| `AltSetting.FindEndpoint` | libuvc/src/stream.c:913-925 | the decoded packet size of the first endpoint with the address, or 0 |
| `AltSetting.SizeTransfer` | libuvc/src/stream.c:927-937 | 1 to 32 packets, all but the last needed for the frame, and the frame covered unless the limit of 32 is met |
| `AltSetting.ChooseAltSetting` | libuvc/src/stream.c:904-984 | the choice is the first setting that suffices, else the first of the largest; it fails if and only if there is nothing usable |
| `ListSort.MergeSorted` | libuvc/include/utlist.h:128-144 | merging two sorted runs gives a sorted run |
| `ListSort.MergeClass` | libuvc/include/utlist.h:133-134 | equivalent nodes keep their order, those of the first run in front |
| `ListSort.PassCorrect` | libuvc/include/utlist.h:113-147 | after the pass with run size w every block of 2w nodes is sorted, with the same nodes and every class of equivalents in its old order |
| `ListSort.PassesCorrect` | libuvc/include/utlist.h:112-152 | the passes together give the stable sort, for every list and total preorder |
| `ListSort.StableSortUnique` | libuvc/include/utlist.h:96-99 | the stable sort of a list is unique |
| `ListSort.CeilLog2Tight` | libuvc/include/utlist.h:148-151 | pass k is needed if and only if 2^k < n, which defines ceil(log2 n) |
| `ListSort.Emit` | libuvc/include/utlist.h:194-200 | a node is appended to the output list, with its `prev` set |
| `ListSort.CountRun` | libuvc/include/utlist.h:120-126 | the first run and where the second starts |
| `ListSort.MergeStep` | libuvc/include/utlist.h:128-144 | one round of the merge loop relinks one node and keeps the rest of the work |
| `ListSort.MergeRuns` | libuvc/include/utlist.h:127-145 | the merge loop on nodes builds `Merge` of the two runs |
| `ListSort.MergePair` | libuvc/include/utlist.h:118-146 | one merge of a pass, with the exact number of its comparisons |
| `ListSort.SortPass` | libuvc/include/utlist.h:168-205 | one pass on nodes builds `Pass`, with the exact number of comparisons, and tells whether it was the last |
| `ListSort.Sort` | libuvc/include/utlist.h:100-212 | LL_SORT and DL_SORT: the same nodes relinked as the stable sort, next, prev and tail links well formed, exactly the comparisons of its merges, which are at most n * ceil(log2 n) |
| `DlList.DlList.constructor` | libuvc/include/utlist.h:36-38 | an empty list is a null head |
| `DlList.DlList.Prepend` | libuvc/include/utlist.h:384-394 | refines prepending to a sequence and keeps all links, head->prev and the final NULL |
| `DlList.DlList.Append` | libuvc/include/utlist.h:396-408 | refines appending |
| `DlList.DlList.Delete` | libuvc/include/utlist.h:410-424 | refines removal, in each of its three branches, and leaves the removed node's own `next` for the loop that iterates |
| `DlList.DlList.UnlinkFirst` | libuvc/include/utlist.h:414-416 | removing the head |
| `DlList.DlList.UnlinkInner` | libuvc/include/utlist.h:417-423 | removing any other node, the last one included |
| `DlList.WithoutAt` | libuvc/include/utlist.h:410-424 | removal by node is removal at its position |
| `DlList.Perform` | libuvc/include/utlist.h:384-424 | every run of the three operations refines the same run on a sequence |
| `DlList.Allocator.Free` | libuvc/src/device.c:545-548 | a block that is freed already must not be freed again |
| `DlList.Teardown` | libuvc/src/device.c:526-557 | the nested teardown leaves every list it walks empty and frees all nodes and interval arrays in post-order |
| `DlList.TearFirst` | libuvc/src/device.c:541-557 | one round of the loop: everything below a node goes, then the node, and the links of the rest stay sound |
| `DlList.DropNode` | libuvc/src/device.c:544-548 | the intervals are freed before the frame, and the frame is deleted before it is freed |
| `DlList.FreedOnce` | libuvc/src/device.c:526-557 | that order names every node and every interval array exactly once, and nothing else |
| `DlList.BelowFirst` | libuvc/src/device.c:541-557 | in that order everything below a node, and its interval array, comes before the node |
| `DlList.BlocksAre` | libuvc/src/device.c:544-548 | the blocks freed are the nodes of the lists and their interval arrays |
| `Descriptors.FlagsKept` | libuvc/src/device.c:1435-1436 | the flags of an MJPEG format come through if and only if they are 0 |
| `Descriptors.FlagsLost` | libuvc/src/device.c:1435-1436 | two blocks that differ in the flags alone and are parsed to the same format |
| `Descriptors.ParseBuilds` | libuvc/src/device.c:1327-1338 | the walk builds the recognised formats in order, each with exactly the frames between it and the next one |
| `Descriptors.FrameBack` | libuvc/src/device.c:1453-1551 | every field and interval of a serialised frame is decoded back, for all three frame subtypes |
| `Descriptors.FormatBack` | libuvc/src/device.c:1364-1447 | every field of a serialised format is decoded back, for all three subtypes and whatever the bytes say that are not kept |
| `Descriptors.BlocksBack` | libuvc/src/device.c:1327-1338 | cutting a string of length-prefixed blocks gives back the blocks |
| `Descriptors.TreeRoundTrip` | libuvc/src/device.c:1364-1616 | parsing a serialised tree of formats and frames gives the tree back, for any frame counts and MJPEG flags in it |
| `Descriptors.InterfaceRoundTrip` | libuvc/src/device.c:1348-1616 | parsing a serialised interface, with its input header, gives back endpoint, terminal, formats and frames |
| `Descriptors.HeaderBlockBack` | libuvc/src/device.c:1348-1358 | endpoint address without its reserved bits, and terminal link, are read from the input header |
| `Descriptors.StreamingInterface.ParseIntervals` | libuvc/src/device.c:1537-1544 | the loop decodes all intervals and ends the list with 0 |
| `Descriptors.StreamingInterface.ParseFrame` | libuvc/src/device.c:1453-1551 | the frame joins the last format, with the fields of its subtype |
| `Descriptors.StreamingInterface.ParseFormat` | libuvc/src/device.c:1364-1447 | the stores of the three format parsers, one after another, append the decoded format |
| `Descriptors.StreamingInterface.ParseVs` | libuvc/src/device.c:1557-1616 | each block subtype goes to its parser, and the unsupported ones change nothing |
| `Descriptors.StreamingInterface.Scan` | libuvc/src/device.c:1327-1338 | the loop ends and parses exactly the blocks of the buffer, in order |
| `PixelConvert.ConvertAt` | libuvc/src/frame.c:176-186 | output group k depends on input group k alone |
| `PixelConvert.PackingsAgree` | libuvc/src/frame.c:327-429 | the UYVY form on pair-swapped bytes is the YUYV form |
| `PixelConvert.ChannelsAgree` | libuvc/src/frame.c:190-241 | BGR output is RGB output with channels 0 and 2 of every pixel exchanged |
| `PixelConvert.FixedClose` | libuvc/src/frame.c:126-147 | for every byte input the fixed-point result is at most 1.2 below and 0.2 above the clamped formula over the reals |
| `PixelConvert.ConvertClose` | libuvc/src/frame.c:126-429 | every byte of a converted image, in each of the four variants, is at most 1.2 below and 0.2 above the clamped formula for its pixel and channel |
| `PixelConvert.ConvertTwo` | libuvc/src/frame.c:137-147 | a group of two pixels is written in place, in each of the four variants |
| `PixelConvert.ConvertEight` | libuvc/src/frame.c:149-150 | the unrolled body converts four groups |
| `PixelConvert.ConvertLoop` | libuvc/src/frame.c:176-185 | the loop writes exactly the bytes before the place where its cursor stops, with the per-group map, and nothing behind it |
| `PixelConvert.LoopEndIs` | libuvc/src/frame.c:180-185 | the cursor stops at the first multiple of 24 at or behind the end |
| `PixelConvert.LoopStaysInside` | libuvc/src/frame.c:178-185 | for every output that holds the image: the last byte written lies in it, and the last byte read in an input of exactly the image, if and only if the output is not larger and the pixels are a multiple of 8 |
| `PixelConvert.ImageOverrun` | libuvc/src/frame.c:178-185 | for an output of exactly the image, writes stay inside if and only if reads do |
| `PixelConvert.LoopOverruns` | libuvc/src/frame.c:180-185 | for a 2 x 2 image the loop writes 24 bytes to 12 and reads 16 of 8 |
| `PixelConvert.LargerOutputOverruns` | libuvc/src/frame.c:178-185 | for an output of 48 bytes the loop reads 32, twice as much as an 8 x 1 image has |
| `PixelConvert.RoomyIff` | libuvc/src/frame.c:158-187 | for an input of exactly the image's size, a conversion stays inside its buffers if and only if the pixels are a multiple of 8 and the output, unless the library owns it, is not larger than the image |
| `PixelConvert.Frame.EnsureSize` | libuvc/src/frame.c:42-56 | it succeeds if and only if the library-owned data can be allocated or has the size already, or the caller's is large enough; then the data has room for what is needed, and a caller's frame is not changed |
| `PixelConvert.ConvertFrame` | libuvc/src/frame.c:158-187 | the whole conversion: error cases, output fields, and the converted image, for all frames with room for what the loop writes and reads |
| `AviFormat.ReadChunksBack` | tcluvc.c:1206-1227 | walking the chunks by their sizes gives back the frames, zero-padded to 4 bytes |
| `AviFormat.ReadSegmentsBack` | tcluvc.c:986-993 | walking the AVIX segments by their RIFF and movi sizes gives back the frames of all of them |
| `AviFormat.ReadFileBack` | tcluvc.c:1569-1639 | reading a finished file, past its index, gives back every frame in order |
| `AviFormat.ChunkAt` | tcluvc.c:1206-1231 | chunk k lies behind the chunks before it |
| `AviFormat.IndexFindsChunk` | tcluvc.c:1260-1269 | index entry k leads from the movi tag to the header of chunk k and tells its padded size |
| `AviFormat.IndexReadBack` | tcluvc.c:1575-1591 | in the bytes of a finished file of one segment: an idx1 chunk behind the movi list, and for each frame an entry whose stored offset leads to its chunk and whose stored size is the chunk's |
| `AviFormat.EntryFields` | tcluvc.c:1260-1266 | the four fields of an index entry are read back from its 16 bytes |
| `AviFormat.HeaderWalked` | tcluvc.c:1466-1484 | the size fields of the header's chunks lead from each to the next, and from the last to the movi list |
| `AviFormat.CountsReadBack` | tcluvc.c:1590-1616 | the frame counts and the index flag are read back from their places |
| `AviWriter.Patched` | tcluvc.c:987-993 | writing over a part replaces that part and touches no other byte |
| `AviWriter.WriteParts` | tcluvc.c:1620-1627 | the four writes of the fixed header cover exactly 240 bytes |
| `AviWriter.PatchHeader` | tcluvc.c:1618-1630 | rewriting the header changes no byte after it, none before the recording, and not the position |
| `AviWriter.Recorder.constructor` | tcluvc.c:1466-1534 | a started recording holds just the header |
| `AviWriter.Recorder.WriteAVIHeader` | tcluvc.c:1569-1639 | the header is brought up to date and, at the end, the index appended; everything between is untouched |
| `AviWriter.RefreshedKeeps` | tcluvc.c:1598-1616 | size, format and rates in the header are left alone, but for the frame time of MJPG |
| `AviWriter.Recorder.AppendIndex` | tcluvc.c:1575-1591 | the index chunk is appended |
| `AviWriter.Recorder.PatchSegment` | tcluvc.c:986-993 | the open AVIX header gets sizes that reach exactly to the end of its chunks |
| `AviWriter.Recorder.CloseSegment` | tcluvc.c:985-1003 | the current segment becomes a closed one |
| `AviWriter.Recorder.CloseAVISegment` | tcluvc.c:970-1012 | and, unless the recording ends, the next one is opened |
| `AviWriter.Recorder.AppendChunk` | tcluvc.c:1206-1227 | header, data and zero padding are appended |
| `AviWriter.Recorder.GrowIndex` | tcluvc.c:1243-1258 | the reallocated index keeps its entries |
| `AviWriter.Recorder.AddIndexEntry` | tcluvc.c:1241-1269 | the index stays the index of all frames, `idx_off` stays 4 plus the segment size, and the entries stay within the capacity, a multiple of 512 |
| `AviWriter.Recorder.AppendFrame` | tcluvc.c:1204-1231 | chunk and counters agree after every frame |
| `AviWriter.Recorder.WriteFrame` | tcluvc.c:1179-1272 | every frame keeps the whole recording invariant; a segment is closed when it has grown beyond 0x7F000000 bytes |
| `AviWriter.Recorder.Finish` | tcluvc.c:1654-1665 | the finished file has exactly the described layout, with frame counts and movi size right, and a first RIFF size 4 too small |
| `AviWriter.FrameNext` | tcluvc.c:1229-1231 | one more frame extends the layout by its chunk, and all sizes still fit in 32 bits |
| `AviWriter.NextSegmentsFrames` | tcluvc.c:1233-1241 | wherever a segment ends, no frame is lost or moved |
| `AviWriter.OffsetsFit` | tcluvc.c:1229-1270 | in the first segment all index offsets are positive 32-bit integers, and every entry ends within `idx_off` |
| `AviWriter.RecordFrames` | tcluvc.c:1179-1290 | any number of frames in a row are all recorded, in order |
| `AviWriter.Session` | tcluvc.c:1309-1677 | a whole recording: reading the finished file by its size fields gives back exactly the recorded frames, zero-padded, in order; the header tells their counts; what was in the channel before is kept; and a recording of one segment has an index, in the file's bytes, that leads to every frame |
| `RateLimiter.DiffPositive` | tcluvc.c:1105-1124 | the comparison of times with one borrow is exact, even with microseconds left at exactly 1000000 |
| `RateLimiter.IntervalIsFrameTime` | tcluvc.c:1414-1423 | the computed interval is the frame time if and only if the rate is above 1 |
| `RateLimiter.OneFrameASecond` | tcluvc.c:1414-1416 | for one frame a second the interval is two seconds |
| `RateLimiter.Reserve` | tcluvc.c:1535-1540 | the recording interval is 500 microseconds shorter, and normalised if and only if `tv_usec` was below 1000500 |
| `RateLimiter.Limiter.constructor` | tcluvc.c:1541-1542 | the timer starts in the present |
| `RateLimiter.Limiter.Reset` | tcluvc.c:2224-2232 | and is reset when a paused recording goes on |
| `RateLimiter.Limiter.Admit` | tcluvc.c:1104-1142 | a frame is written if and only if its time has come and it has data; written frames stay at least `rrate` apart, even when clocks go backwards |
| `RateLimiter.WindowSpaced` | tcluvc.c:1122-1139 | the frames written within a window are spaced as well |
| `RateLimiter.WindowBound` | tcluvc.c:1122-1139 | at most T / rrate + 1 written frames have their time within a window of T microseconds |
| `RateLimiter.WindowCounts` | tcluvc.c:1122-1139 | the window misses none of them |
| `Mailbox.StepWakeups` | tcluvc.c:1971-2148 | `numev` counts the live events and the pending idle call, and is 0 or 1 while capturing, in both update modes |
| `Mailbox.StepPlaces` | tcluvc.c:1971-2455 | no step loses or copies a frame |
| `Mailbox.StepOwners` | tcluvc.c:1971-2455 | each frame is in exactly one place and freed at most once |
| `Mailbox.StepOrder` | tcluvc.c:2440-2446 | the frames in the slot never go back in order |
| `Mailbox.StepCounters` | tcluvc.c:1977-1982 | frames stored minus frames dropped is at most 1 plus the number of takes |
| `Mailbox.RunGood` | tcluvc.c:1926-2455 | all of these, over every interleaving of the two threads |
| `Mailbox.StoreWakes` | tcluvc.c:1983-2000 | after every stored frame a live wake-up is outstanding |
| `Mailbox.StopSilences` | tcluvc.c:2136-2146 | after StopCapture every queued event is dead and its delivery does nothing to the device |
| `Mailbox.SilentUntilStart` | tcluvc.c:1983-2146 | until the next start no run makes or leaves an event that can reach the device, even with a frame still on its way |
| `Mailbox.PutBackKeepsNewer` | tcluvc.c:2440-2453 | put-back never replaces a newer frame; the older one is freed |
| `Mailbox.PutBackRestores` | tcluvc.c:2440-2446 | a frame that is put back into the empty slot is there again, and nothing is freed |
| `Mailbox.TakenAndPutBack` | tcluvc.c:2273-2446 | over every run from a take to its put-back in which nothing is stored, the slot ends up as it was |
| `Mailbox.StoreKeepsNewest` | tcluvc.c:1971-1981 | after a store the slot holds the newest frame made, and the one it replaces is to be freed |
| `Mailbox.FreedWhy` | tcluvc.c:2002-2004 | a frame is freed only if it was replaced, came back to find a newer one, or could not be converted |
| `Mailbox.CountersCount` | tcluvc.c:1977-1982 | between two starts the counters are exactly the numbers of frames stored, shown and dropped |
| `Mailbox.StartFresh` | tcluvc.c:2211-2214 | a start begins with counters at 0 and no live event, and leaves the frames alone |
| `Mailbox.Device.constructor` | tcluvc.c:2211-2214 | an opened device has no frame, no event and zero counters |
| `Mailbox.Device.StoreFrame` | tcluvc.c:1971-2001 | the locked part of FrameCallback is the step `Store`, and tells which frame is left to free |
| `Mailbox.Device.QueueEvent` | tcluvc.c:1986-1998 | the new event is queued and entered in the table of live events |
| `Mailbox.Device.FrameReady0` | tcluvc.c:2072-2104 | delivering the first event is the step `Deliver` |
| `Mailbox.Device.FrameReady` | tcluvc.c:2029-2033 | the idle call is the step `IdleCall` |
| `Mailbox.Device.TakeFrame` | tcluvc.c:2273-2277 | taking the frame is the step `Take` |
| `Mailbox.Device.PutFrameBack` | tcluvc.c:2440-2453 | putting it back is the step `PutBack`, and it is freed if and only if there is a newer one |
| `Mailbox.Device.StopCapture` | tcluvc.c:2119-2148 | the loop over the table kills exactly the queued events |
| `Mailbox.Device.StartCapture` | tcluvc.c:2210-2215 | counters and `numev` start at 0 before the stream is started, and frames may come from then on |
| `Mailbox.Device.CaptureStarted` | tcluvc.c:2216-2223 | a failed start leaves the device not capturing |
| `Mailbox.FailedStartSilent` | tcluvc.c:2215-2223 | a start that fails leaves no event that can reach the device and no stored frame |
| `Geometry.Orient` | tcluvc.c:1847-1901 | for all sizes and all 16 settings the block shows the source turned by the angle and then flipped |
| `Geometry.HalfTurnFlipsBoth` | tcluvc.c:1864-1866 | both mirrors together are a further half turn |
| `Geometry.CornersTurned` | tcluvc.c:1867-1890 | which way it turns: where two corners of the source go, for 90, 180 and 270 degrees |
| `Geometry.FlippedAfter` | tcluvc.c:1891-1901 | mirroring works along the axes of the turned image |
| `Geometry.TurnedInverse` | tcluvc.c:1867-1890 | turning maps the rectangle one to one |
| `Geometry.SourceOf` | tcluvc.c:2364-2401 | every pixel of the block is a source pixel, and all its bytes lie inside the buffer |
| `Geometry.EveryPixelOnce` | tcluvc.c:2364-2401 | every source pixel is shown exactly once |
| `Geometry.NormalizedNearest` | tcluvc.c:1852-1863 | an angle is rounded to the nearest multiple of 90 if and only if it is not negative or within half a quarter turn of 0 |
| `Geometry.QuarterBackLost` | tcluvc.c:1852-1863 | -90 becomes 0, though 270 is nearest |
| `Geometry.Normalized` | tcluvc.c:1852-1863 | every angle becomes one of four, and every negative one 0 |
| `Geometry.SettingIsSymmetry` | tcluvc.c:1864-1901 | each setting is one of the eight symmetries of the rectangle |
| `Geometry.EachSymmetryTwice` | tcluvc.c:1864-1901 | the 16 settings cover each of the eight exactly twice |
| `Geometry.SymmetriesDiffer` | tcluvc.c:1864-1901 | the eight are different on any image of at least 2 x 2 pixels |
| `ControlCodec.StrtolBack` | tcluvc.c:2859 | `strtol` with base 0 reads a printed number back, up to the comma behind it; one that does not fit in a long becomes the nearest that does |
| `ControlCodec.HexBack` | tcluvc.c:2859 | behind 0x or 0X a number is read in base 16 |
| `ControlCodec.OctalBack` | tcluvc.c:2859 | behind 0 it is read in base 8 |
| `ControlCodec.SpaceSkipped` | tcluvc.c:2859 | white space in front of a number does not matter |
| `ControlCodec.PlusAndNothing` | tcluvc.c:2859 | a plus sign does not matter, and what is not a number is 0 and stays unread |
| `ControlCodec.ValuesBack` | tcluvc.c:2855-2879 | a printed list is read back value by value |
| `ControlCodec.ItemsBack` | tcluvc.c:2860-2874 | storing printed values gives back the bytes, for items of 1, 2 and 4 bytes |
| `ControlCodec.ItemRange` | tcluvc.c:2791-2804 | items of one and two bytes are printed as unsigned numbers, those of four as signed ones |
| `ControlCodec.ItemBytesWrap` | tcluvc.c:2860-2874 | of a number too large for its item, the low bytes are stored |
| `ControlCodec.ListLooks` | tcluvc.c:2805-2806 | a printed list is decimal numbers with commas between them |
| `ControlCodec.PrintedListRestores` | tcluvc.c:2780-2879 | the round trip: the text printed for m items restores exactly their bytes and leaves the later items alone |
| `ControlCodec.LaterItemsKeptIff` | tcluvc.c:2855-2879 | the text of m items leaves the later items alone if and only if m > 0, there are no items, or the first is 0 already |
| `ControlCodec.EmptyListClearsFirst` | tcluvc.c:2855-2878 | an empty list sets the first item to 0 |
| `ControlCodec.PrintVal` | tcluvc.c:2780-2811 | the loop prints the list of all item values |
| `ControlCodec.ReadItem` | tcluvc.c:2791-2804 | an item is decoded little-endian, four bytes as a signed integer |
| `ControlCodec.WriteItem` | tcluvc.c:2860-2874 | the low bytes of the value are stored, and no other byte changes |
| `ControlCodec.SetControl` | tcluvc.c:2855-2879 | the loop stores as many values as the list has, and no more than there are items |

## Left out

- libusb, libudev, Tcl and Tk, pthreads and libjpeg: their answers are parameters of the steps that ask for them.
- The packets of one transfer as a single step of the interleavings: there they arrive one at a time, which allows every order that the locked loop has and more; the loop itself is `PayloadStream.ReceivePackets`.
- The placeholder sizes in the header before the first segment is closed: `segsize0` has two meanings 4 bytes apart.
- The index after a failed allocation: it starts again with stale offsets, so the index claims hold while no allocation has failed (`indexed`).
- The averaged frame rate (`avi.rate`): the rate written to an MJPG header is a parameter.
- The start value of `bps`, `image_size` and the other constant header fields: the header template is a parameter.
- Write and seek errors on the recording channel, and the HTTP MJPEG boundary mode of WriteFrame.
- RateLimiter.Limiter.Admit: intervals that are not normalised after the reserve (rates of half a frame a second and slower), for which a single carry is not enough, and negative intervals.
- Frames whose padded size or width * height * 3 overflow a 32-bit integer, an index of 2 GiB or more, and the overflow of the run size in the merge sort for lists of 2^30 nodes or more.
- PayloadStream.StreamHandle.ProcessPayload: payloads that do not fit behind the pending bytes in the 16 MiB buffer, which the code does not check, and headers that announce fields beyond the transfer buffer are preconditions.
- Descriptors.StreamingInterface.Scan: lengths of 0 or beyond the end, blocks too short for their fields, and a frame before any format are preconditions; the code does not check them. The parsed lists are sequences here; the lists of nodes that hold them are those of `DlList.dfy`.
- DlList.Teardown: the control interface's lists of terminals and units, which are flat lists of the same shape.
- PixelConvert.ConvertFrame: what the loop does to memory outside the frames; room for what it writes and reads is a precondition (`Roomy`).
- ControlCodec.SetControl: `long` has 64 bits; locales and the `update-mode` pseudo control are not modelled.
- Switching the update mode while an event is in flight, and the mailbox path on which the library's own frame is stored without conversion.
- Conversion of a frame inside GetImage, the callback script and the recording state machine around FrameReady.
- The retry loop over capture formats in StartCapture, which advances its index twice.
- The bandwidth estimate that replaces a payload size of 0xFFFF: the required packet size is a parameter.
- Waiting with a time limit in `uvc_stream_get_frame`: it is two looks at the held frame.
- What happens after a stop that timed out: the freed transfers may still be in flight. Closing a handle, which frees its buffers, is not modelled; a frame that is still on its way then is the mailbox's (`Mailbox.Enabled`), which takes it that no capture starts before it has arrived: the old thread has ended, or the device is lost and setting the format fails.
- Generated control accessors, diagnostics, device enumeration, reference counts, the MJPEG wrappers, the masked copies and the demos: easy members or plumbing.
