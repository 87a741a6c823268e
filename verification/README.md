# Verified models of the cant runtime and compiler core

This project models the parts of the cant automotive toolkit whose correctness rests on
state, arithmetic or protocol, and proves what each of them keeps over every run. Where the
C code does something other than its interface suggests, the model does what the code does;
a lemma then shows the input on which the expected property fails and another says exactly
when it holds.

`dafny verify dfyconfig.toml` checks the whole project.

| module | part of the system |
|---|---|
| `HeapLayout`, `HeapUse`, `HeapCalls`, `HeapOverlap`, `HeapList` | the heap of the memory manager: its blocks as a value, which of them are in use, what the calls answer, where the headers lie, and the linked list that represents the blocks |
| `Pool` | the fixed-size memory pools |
| `IsoTpFrames`, `IsoTp`, `IsoTpDelivery` | segmentation and reassembly of payloads in CAN frames (ISO 15765-2), and what is handed out after any frames |
| `DiagTransport`, `DiagDelivery`, `DiagStation` | the diagnostic transport: receiver, sender and error code; what is delivered when frames are lost, repeated, reordered or mixed; and what matters to receiver and sender in a run of the whole |
| `CrcBits`, `Crc`, `CrcRemainder` | the table-driven CRC-8, CRC-16, CRC-32 and CRC-64, and what they compute in terms of polynomials |
| `FrameStream`, `FrameScan`, `MessageHandler`, `NetworkHandler` | framing of diagnostic messages in a byte stream, and what is found in any bytes |
| `RouteTable` | the hashed routing table |
| `E2eProtection` | end-to-end protection by sequence number, time and check value |
| `FlowMonitor`, `FlowRuns` | validation and monitoring of program flow, and which runs are accepted |
| `NetBuffer` | the ring buffer |
| `DiagResponse`, `ResponseTimers` | the table of pending responses and its timers |
| `Lexer` | the lexer of the compiler |
| `Peephole` | strength reduction on expression graphs |
| `Basics`, `Arithmetic`, `Counting`, `Conservation` | shared types, powers of two, quotients, sizes of finite sets, queues that lose nothing |

Code that updates objects in place is a class whose methods are proved against functions on
values (`Heap` against `HeapLayout`, `Isotp`, `Transport`, `Receiver`, `Table`, `Ring`,
`Lexer` and so on); the theorems about runs are then lemmas about those functions.

## What the code does differently

- `split_block` compares an unsigned difference, so a request that leaves less than one
  overhead in its block is not left whole: the remainder wraps to almost 4 GiB. The list
  stays well formed over a run exactly when no split is that tight
  (`HeapLayout.RunKeepsIff`, `HeapLayout.NearlyFullRequestBreaksList`).
- The tightest split, an exact fit, puts the new header on top of the next one. When that block is
  in use, it ends up free and linked to itself although nobody freed it
  (`HeapOverlap.WritesOverIff`, `HeapOverlap.ExactFitDestroysNext`, `HeapOverlap.LiveBlockLost`).
  So what a call leaves of the other blocks is stated for splits that are not tight.
- `Memory_CheckIntegrity` fails right after an allocation exactly if its split was tight or left a
  block of no bytes, which is no damage (`HeapCalls.AllocIntegrityIff`).
- Every split subtracts the overhead twice, so one overhead of the heap is lost for good at
  each split (`HeapLayout.HeapConserved`).
- `free_to_pool` truncates a negative quotient towards zero and cuts it to 32 bits, so pointers
  just below a pool, and some far away, count as its blocks (`Pool.CapturedIff`). Freeing a block
  of one pool can release a live block of another (`Pool.FreeWrongBlock`).
- After a sequence error `isotp_receive` hands out the announced length although part of it
  never arrived (`IsoTpDelivery.FetchedAfter`, `IsoTp.WrongNumberHandsOutLeftovers`). The sender moves on when the driver
  refuses a frame, which leads there (`IsoTp.SkippedFrameHandsOutLeftovers`).
- A frame with a fitting number is taken for the one that is due, so the diagnostic receiver can
  deliver spliced messages. It delivers exactly the intact ones if and only if no transfer is
  completed with other frames than its own (`DiagDelivery.IntactDeliveredIff`).
- A first frame may name fewer bytes than it carries, even none; the next frame then delivers that
  many (`DiagStation.ShortFirstFrame`, `IsoTpDelivery.ShortFirstFrame`).
- `reset_rx_state` clears the error code that was set just before it, so a sequence error is
  never visible; the error of a busy sender and that of a reported overflow are
  (`DiagTransport.LastMarkDecides`).
- No code sends the remaining frames of a long response, so once the peer lets it continue the
  sender stays busy until it is aborted (`DiagTransport.NeverIdleAgain`).
- A block size of 0 has every consecutive frame but the last answered, and a first frame does not
  reset the block counter of the transfer it interrupts (`DiagDelivery.FlowControlAnswers`).
- CRC-32 and CRC-64 shift to the right with unreflected polynomials that lack their top bit,
  so some bursts as wide as the register go undetected (`Crc.DefaultCrc32And64MissBursts`).
- A frame longer than 255 bytes is cut when it is queued, so payloads above 251 bytes do not
  come back (`FrameStream.RoundTripIff`); chunks above 254 bytes can lose messages
  (`FrameStream.LargerChunksLoseMessages`).
- The check value of a protected frame does not cover its number, so any frame whose number is
  changed to the awaited one is accepted (`E2eProtection.DamagedNumberAcceptedIff`).
- Lost protected frames block the receiver until the counter comes round, and one late frame
  makes all later ones late (`E2eProtection.GapRejectsUntilWrap`, `E2eProtection.LateForGood`).
- The timer of a finished request keeps running and can end a later request with the same id
  (`ResponseTimers.AlwaysCleanIff`, `ResponseTimers.ReuseHit`).
- `Flow_Monitor_ValidateFlow` follows an expected successor that does not exist when the
  alternate one does (`FlowMonitor.NeverEscapesIff`).
- Line comments do not advance the column of the lexer; this shows only at the end of the
  source (`Lexer.SkipPositionTrue`).

## Model

| member | source | states |
|---|---|---|
| HeapLayout.SplitKeepsIff | src/runtime/memory/memory_manager.c:129-149 | splitting keeps blocks ordered, disjoint and inside the heap if and only if the block has room for the request and one more overhead |
| HeapLayout.SplitTotal | src/runtime/memory/memory_manager.c:129-149 | a split with room loses exactly one overhead from the accounted bytes, no split loses nothing |
| HeapLayout.MergeKeeps | src/runtime/memory/memory_manager.c:330-350 | a merge of two neighbours keeps the layout, does not wrap, and conserves the accounted bytes |
| HeapLayout.FreeKeeps | src/runtime/memory/memory_manager.c:275-353 | freeing any block, with both merges, keeps the layout and the accounted bytes |
| HeapLayout.AllocKeepsIff | src/runtime/memory/memory_manager.c:239-257 | allocating in a block keeps the heap well formed if and only if the block has room for another overhead |
| HeapLayout.ResizeKeepsIff | src/runtime/memory/memory_manager.c:445-472 | shrinking or growing in place keeps the heap well formed if and only if its split is not tight |
| HeapLayout.BestFitExists | src/runtime/memory/memory_manager.c:108-127 | whenever some free block is large enough there is a first smallest one |
| HeapLayout.StepKeepsIff | src/runtime/memory/memory_manager.c:214-486 | any call on a well-formed heap leaves it well formed if and only if the call makes no tight split |
| HeapLayout.StepAccounts | src/runtime/memory/memory_manager.c:214-486 | every call accounts for all bytes but one overhead for a split |
| HeapLayout.RunKeepsIff | src/runtime/memory/memory_manager.c:151-486 | a run of allocate, free, resize and defragment keeps the heap well formed throughout if and only if none of its splits is tight |
| HeapLayout.RunAccounts | src/runtime/memory/memory_manager.c:214-486 | over a whole run the accounted bytes shrink by one overhead for every split |
| HeapLayout.HeapConserved | src/runtime/memory/memory_manager.c:151-486 | from initialisation on, the heap size is the sum over all blocks plus one overhead for every split so far |
| HeapLayout.NearlyFullRequestBreaksList | src/runtime/memory/memory_manager.c:129-149 | 900 bytes from a fresh heap of 1000 leave a list that is not well formed |
| HeapLayout.AllocKeepsNoFreePair | src/runtime/memory/memory_manager.c:239-257 | allocation never makes two free neighbours |
| HeapLayout.FreeKeepsNoFreePair | src/runtime/memory/memory_manager.c:330-350 | freeing with its two merges never leaves two free neighbours |
| HeapLayout.ResizeKeepsNoFreePairIff | src/runtime/memory/memory_manager.c:445-472 | resizing makes two free neighbours if and only if it shrinks with a split inside or in front of a free block |
| HeapLayout.RunKeepsNoFreePair | src/runtime/memory/memory_manager.c:214-353 | no run without resizing and without a tight split ever has two free neighbours |
| HeapLayout.CoalesceKeeps | src/runtime/memory/memory_manager.c:621-652 | defragmenting keeps the layout and the accounted bytes |
| HeapLayout.CoalesceNormalises | src/runtime/memory/memory_manager.c:621-652 | defragmenting removes all free neighbours from any list and leaves every used block as it is |
| HeapLayout.CoalesceFixpoint | src/runtime/memory/memory_manager.c:621-652 | a list without free neighbours is not changed by defragmenting |
| HeapLayout.CoalesceKeepsFits | src/runtime/memory/memory_manager.c:621-652 | a request that could be served before defragmenting can be served after it |
| HeapLayout.AlignUpHolds | src/runtime/memory/memory_manager.c:241 | rounding to words is idempotent and covers the request if and only if it does not wrap |
| HeapLayout.IntegrityOfWellFormed | src/runtime/memory/memory_manager.c:539-619 | on a well-formed heap the block checks pass if and only if no block is empty, and the sum never exceeds the heap |
| HeapUse.AllocUses | src/runtime/memory/memory_manager.c:239-257 | allocation in a block with room for another overhead adds exactly one block to those in use, at the address of the free block it was |
| HeapUse.FreeUses | src/runtime/memory/memory_manager.c:275-353 | freeing takes exactly its block from those in use, whatever it merges |
| HeapUse.ResizeUses | src/runtime/memory/memory_manager.c:445-472 | resizing in place without a tight split changes the size of its own block and nothing else in use |
| HeapUse.HandedOutBlockStays | src/runtime/memory/memory_manager.c:214-652 | a block handed out keeps its address and size through every run that makes no tight split and does not free or resize it |
| HeapUse.HandedOutBlockIsAlone | src/runtime/memory/memory_manager.c:214-652 | and in such a run no other block of the heap overlaps it |
| HeapCalls.AllocServedIff | src/runtime/memory/memory_manager.c:214-257 | on a well-formed heap a request that no pool serves is served if and only if it is not empty and some free block is large enough |
| HeapCalls.AllocTakes | src/runtime/memory/memory_manager.c:239-257 | it gets the first smallest such block, cut to the request if and only if the rest makes a block or the split is tight |
| HeapCalls.AllocIntegrityIff | src/runtime/memory/memory_manager.c:539-584 | on a heap that passes the check, the check fails right after an allocation if and only if the split was tight or left a block of no bytes |
| HeapCalls.FreeServedIff | src/runtime/memory/memory_manager.c:275-353 | freeing gives a block back if and only if it is in use, not empty and its guards are intact, and changes nothing otherwise |
| HeapCalls.GrowsIff | src/runtime/memory/memory_manager.c:445-472 | in place a block reaches the size asked for if and only if it is large enough, alone or with the free block behind it and its overhead |
| HeapCalls.ResizedSize | src/runtime/memory/memory_manager.c:445-472 | how large the block is then, in plain sizes |
| HeapCalls.ReallocStays | src/runtime/memory/memory_manager.c:403-472 | a reallocation that can stay is that resizing |
| HeapCalls.ReallocMoves | src/runtime/memory/memory_manager.c:474-486 | one that cannot moves to the first smallest free block, chosen while the old one is in use; afterwards the new block is in use instead of the old one and no other changes |
| HeapCalls.ReallocToPool | src/runtime/memory/memory_manager.c:474-486 | when a pool serves it, just the old block is given back |
| HeapCalls.ReallocFailsKeeps | src/runtime/memory/memory_manager.c:403-486 | one that is refused or finds no room leaves everything as it was |
| HeapOverlap.WritesOverIff | src/runtime/memory/memory_manager.c:129-149 | the header a split writes shares bytes with another header if and only if that is the next one and lies less than a header behind it; such a split is tight |
| HeapOverlap.LiveBlockHit | src/runtime/memory/memory_manager.c:129-149 | in a list without free neighbours the block hit by the split of a free one is in use |
| HeapOverlap.ClobberingIsTight | src/runtime/memory/memory_manager.c:214-486 | a call that writes over the header of another block makes a tight split |
| HeapOverlap.ExactFitOverwritesLiveBlock | src/runtime/memory/memory_manager.c:214-353 | on a fresh heap of 1000 bytes, after two requests of 100 and the release of the first, a third request of 100 puts a header exactly on that of the second, live block |
| HeapOverlap.RoomySplitDescribed | src/runtime/memory/memory_manager.c:129-149 | the assignments of a split with room, on headers found by their addresses, leave exactly the list that the layout function says |
| HeapOverlap.ExactFitDestroysNext | src/runtime/memory/memory_manager.c:129-149 | after an exact fit the adjacent next header says free, almost 4 GiB large and linked to itself |
| HeapOverlap.LiveBlockLost | src/runtime/memory/memory_manager.c:214-353 | so in the run above the live block is lost, whatever memory held before |
| HeapList.Heap.constructor | src/runtime/memory/memory_manager.c:151-174 | initialisation links one free block that fills the heap |
| HeapList.Heap.FindBestFit | src/runtime/memory/memory_manager.c:108-127 | the list walk finds the first smallest free block that is large enough, and none if and only if there is none |
| HeapList.Heap.SplitBlock | src/runtime/memory/memory_manager.c:129-149 | the linked list splits as the layout function says and keeps the list doubly linked |
| HeapList.Heap.LinkAfter | src/runtime/memory/memory_manager.c:139-147 | a block is linked in both directions behind another, also at the end of the list |
| HeapList.Heap.UnlinkNext | src/runtime/memory/memory_manager.c:331-338 | the next block leaves the list in both directions, also at the end of the list |
| HeapList.Heap.MergeWithNext | src/runtime/memory/memory_manager.c:330-350 | swallowing the next block refines the merge of the layout and keeps the list linked |
| HeapList.Heap.Alloc | src/runtime/memory/memory_manager.c:214-273 | allocation refines its layout step, answers with a used block that holds the request, and fails if and only if nothing fits |
| HeapList.Heap.Free | src/runtime/memory/memory_manager.c:275-353 | freeing refines its layout step: refused for invalid, unused or corrupted blocks, otherwise merged with both neighbours |
| HeapList.Heap.Realloc | src/runtime/memory/memory_manager.c:403-486 | reallocation is one or two layout steps; in plain sizes, it answers with the same block if and only if that can stay, and with nothing if and only if it cannot and no free block is large enough or a pool serves it |
| HeapList.Heap.Defragment | src/runtime/memory/memory_manager.c:621-652 | the passes end, and the list is the coalesced one |
| HeapList.Heap.CheckIntegrity | src/runtime/memory/memory_manager.c:539-584 | the check passes if and only if every block is valid, no used block is corrupted and the 32-bit sum fits the heap |
| Pool.MemoryPool.constructor | src/runtime/memory/memory_manager.c:176-206 | a new pool has every block free |
| Pool.MemoryPool.Allocate | src/runtime/memory/memory_manager.c:79-94 | a block that was not live is handed out and becomes live; refused if and only if none is free |
| Pool.MemoryPool.Release | src/runtime/memory/memory_manager.c:96-106 | exactly a live block is taken back, so a second release is refused |
| Pool.MemoryPool.Conserved | src/runtime/memory/memory_manager.c:79-106 | free and live blocks together are all blocks |
| Pool.AddressRoundTrip | src/runtime/memory/memory_manager.c:85-98 | the address of a block leads back to its index |
| Pool.CapturedIff | src/runtime/memory/memory_manager.c:96-99 | a pointer counts as a block of the pool if and only if it is inside the pool, less than one block below it, or in one of the equal windows where the 32-bit quotient wraps into the pool |
| Pool.ForeignBlockCaptured | src/runtime/memory/memory_manager.c:96-99 | a block that begins less than one block below a pool counts as block 0 of that pool |
| Pool.ReleaseToPools | src/runtime/memory/memory_manager.c:285-297 | of any number of pools, the first that takes the pointer for a live block of its own releases that block, and all others keep theirs |
| Pool.FreeWrongBlock | src/runtime/memory/memory_manager.c:285-297 | when a pool that begins less than one of its blocks above a live block of another pool is asked first and its block 0 is live, freeing the block releases that block 0, and the block itself stays live |
| Pool.SuitableHoldsIff | src/runtime/memory/memory_manager.c:70-77 | a suitable pool block holds the request if and only if adding the overhead did not wrap |
| Pool.FindSuitablePool | src/runtime/memory/memory_manager.c:70-77 | finds the first pool with a free block that holds the request and its overhead, or whose size their wrapped sum does not exceed |
| IsoTp.RoundTrip | src/runtime/protocols/isotp.c:38-202 | for every payload of 1 to 4095 bytes and every receiver state, the frames of the payload make exactly it available |
| IsoTpFrames.SegmentedCarries | src/runtime/protocols/isotp.c:38-90 | read by their own lengths, the frames of a payload carry exactly it, and are zero behind |
| IsoTp.InOrderSyncs | src/runtime/protocols/isotp.c:101-146 | after any prefix of the frames the receiver holds exactly that prefix of the payload and expects the next number |
| IsoTp.FetchableIff | src/runtime/protocols/isotp.c:124-146 | in a transfer a payload can be fetched if and only if the last frame came or a number was wrong |
| IsoTp.WrongNumberHandsOutLeftovers | src/runtime/protocols/isotp.c:124-202 | after a wrong number the arrived prefix is handed out filled up with old buffer contents |
| IsoTp.SkippedFrameHandsOutLeftovers | src/runtime/protocols/isotp.c:71-146 | when the driver refuses a frame that is not the last, the next one makes the receiver hand out leftovers |
| IsoTp.AllTaken | src/runtime/protocols/isotp.c:38-90 | a driver that takes every frame puts all of them on the bus |
| IsoTp.Isotp.Transmit | src/runtime/protocols/isotp.c:168-185 | puts the first of the frames on the bus if the driver takes it, fails exactly for lengths 0 and above 4095 and for a refusal, and is ready to send the rest either way |
| IsoTp.Isotp.SendConsecutiveFrame | src/runtime/protocols/isotp.c:71-90 | puts the next frame on the bus if the driver takes it, and moves on in either case |
| IsoTp.Isotp.TransmitAll | src/runtime/protocols/isotp.c:38-90 | a whole transmission puts exactly those frames of the payload on the bus that the driver takes |
| IsoTp.Isotp.ProcessFrame | src/runtime/protocols/isotp.c:92-146 | one received frame moves the reception state as the frame function says |
| IsoTp.Isotp.Receive | src/runtime/protocols/isotp.c:187-202 | a payload is handed out once |
| IsoTpDelivery.FetchedAfter | src/runtime/protocols/isotp.c:92-202 | from any receiver state, after a first frame and any consecutive frames of whatever messages, what is handed out is known byte for byte: the frames up to the length, or those before the first wrong number and old buffer contents, or nothing |
| IsoTpDelivery.FetchedAfterSingle | src/runtime/protocols/isotp.c:92-202 | after a single frame consecutive frames change nothing |
| IsoTpDelivery.ShortFirstFrame | src/runtime/protocols/isotp.c:101-146 | a first frame that names 1 to 7 bytes hands out nothing until any consecutive frame comes, and then that many |
| IsoTpDelivery.RelevantDecides | src/runtime/protocols/isotp.c:92-146 | in every run the frames of other kinds can be left out, so the two cases above and an idle receiver cover all runs |
| IsoTpDelivery.IdleIgnores | src/runtime/protocols/isotp.c:124-146 | an idle receiver ignores consecutive frames |
| IsoTpDelivery.WindowedFetched | src/runtime/protocols/isotp.c:92-202 | when the frames of one message are lost, repeated or reordered by at most 15 places, the message is handed out whole, or its part that came in order and old buffer contents, or nothing |
| IsoTpDelivery.TakesSome | src/runtime/protocols/isotp.c:124-146 | for all frames there is a first point where the payload is complete, the frames end or the number is wrong |
| DiagTransport.RunIsReceiverRun | src/runtime/diagnostic/diag_transport.c:196-325 | over every run of frames, responses and aborts the requests delivered are those of the receiver alone |
| DiagTransport.LastMarkDecides | src/runtime/diagnostic/diag_transport.c:159-335 | every run ends with the error of the last event that touched it: cleared by a rejected or completing consecutive frame, busy after a refused response, overflow when the peer reports one; a sequence error is never visible |
| DiagTransport.BusyErrorSurvives | src/runtime/diagnostic/diag_transport.c:159-223 | two single-frame requests, the first answered at length, leave the busy error |
| DiagTransport.NeverIdleAgain | src/runtime/diagnostic/diag_transport.c:296-335 | a response that was allowed to continue keeps the sender busy in every run without an abort, and every further response is refused |
| DiagTransport.Transport.constructor | src/runtime/diagnostic/diag_transport.c:134-151 | a new transport is idle on both sides and has no error |
| DiagTransport.Transport.ResetRxState | src/runtime/diagnostic/diag_transport.c:72-79 | the reset makes the receiver idle, clears the error and leaves the sender alone |
| DiagTransport.Transport.Send | src/runtime/diagnostic/diag_transport.c:159-194 | a response is refused while another is under way, sent at once up to 7 bytes, and otherwise waits for flow control |
| DiagTransport.Transport.AbortTransmission | src/runtime/diagnostic/diag_transport.c:331-335 | the sender becomes idle and nothing else changes |
| DiagTransport.Transport.ProcessFlowControl | src/runtime/diagnostic/diag_transport.c:296-321 | a flow-control frame counts only while one is waited for |
| DiagTransport.Transport.ProcessReceived | src/runtime/diagnostic/diag_transport.c:196-325 | one frame moves receiver, sender and error and delivers requests as the handling function says |
| DiagDelivery.FrameOfSegmented | src/runtime/protocols/isotp.c:38-90 | the frames that arrive are those the sender makes of a payload |
| DiagDelivery.StepFollows | src/runtime/diagnostic/diag_transport.c:204-294 | one arrival of any frame of any message moves the receiver, and delivers, as seen from the accepted frames alone |
| DiagDelivery.RunFollows | src/runtime/diagnostic/diag_transport.c:204-294 | for any arrivals at all the deliveries are known byte for byte |
| DiagDelivery.IntactDeliveredIff | src/runtime/diagnostic/diag_transport.c:204-294 | under any loss, repetition, reordering and mixing of any messages, an idle receiver delivers exactly the messages that arrived intact if and only if no transfer is completed with other frames than its own, and each that is adds one delivery |
| DiagDelivery.RestartDeliveredIff | src/runtime/diagnostic/diag_transport.c:225-294 | the same from any receiver state when the first arrival is a first frame |
| DiagDelivery.IntactIsCopies | src/runtime/diagnostic/diag_transport.c:225-294 | for one message, arriving intact is arriving whole, in order and without a break |
| DiagDelivery.WindowedDelivery | src/runtime/diagnostic/diag_transport.c:225-294 | when every frame arrives within 15 places of its turn nothing is spliced: each unbroken copy of the message is delivered and nothing else |
| DiagDelivery.LossDelivery | src/runtime/diagnostic/diag_transport.c:225-294 | when any consecutive frames of a message are lost, in any receiver state, the message is delivered if all arrive and nothing otherwise |
| DiagDelivery.WholeDelivered | src/runtime/diagnostic/diag_transport.c:225-294 | all frames in order deliver the message from any state |
| DiagDelivery.LostFirstFrame | src/runtime/diagnostic/diag_transport.c:244-249 | without the first frame an idle receiver delivers nothing |
| DiagDelivery.StreamDelivery | src/runtime/diagnostic/diag_transport.c:225-294 | a stream of messages that loses no first frame delivers exactly the undamaged messages, in order |
| DiagDelivery.LostFirstFrameSplices | src/runtime/diagnostic/diag_transport.c:244-291 | when a first frame is lost, parts of two messages can be delivered as one |
| DiagDelivery.LateFrameSplices | src/runtime/diagnostic/diag_transport.c:244-291 | a frame 16 places late is taken for the due one, so 15 is the largest safe distance |
| DiagDelivery.FlowControlAnswers | src/runtime/diagnostic/diag_transport.c:232-289 | how many flow-control frames a transfer is answered with, for every block size and every block counter it starts with |
| DiagStation.IgnoredChangesNothing | src/runtime/diagnostic/diag_transport.c:196-325 | empty frames, single frames without a length from 1 to 7, flow control and unknown frames leave every reception as it is |
| DiagStation.OthersMatter | src/runtime/diagnostic/diag_transport.c:196-294 | every other frame changes or delivers something in some state |
| DiagStation.RelevantDecides | src/runtime/diagnostic/diag_transport.c:196-325 | in every run those frames can be left out: reception, answers and deliveries are the same |
| DiagStation.StationDeliversIntactIff | src/runtime/diagnostic/diag_transport.c:196-335 | whatever calls, flow control and other frames come between the frames of any messages, exactly the messages that arrived intact are delivered if and only if no transfer is completed with other frames than its own |
| DiagStation.ShortFirstFrame | src/runtime/diagnostic/diag_transport.c:225-279 | a first frame that names fewer than 8 bytes is answered, and the next frame delivers what is named if and only if its number is 1 |
| DiagStation.SenderHistory | src/runtime/diagnostic/diag_transport.c:159-335 | in every run of a quiet station the sender waits if and only if a response of more than 7 bytes was started while none was unfinished and the peer has not answered since, may send if and only if the peer let such a response continue and it was not aborted since, and is idle otherwise |
| DiagStation.ResponseTakenIff | src/runtime/diagnostic/diag_transport.c:159-194 | after any run a response is taken if and only if it is not empty and no earlier one is unfinished, and is out at once up to 7 bytes |
| CrcBits.TableStepIsFeed | src/runtime/utils/crc.c:27-60 | one table lookup computes what eight single-bit steps compute, for every register width and polynomial |
| CrcBits.FeedAllIsShifts | src/runtime/utils/crc.c:27-60 | feeding bits one at a time is adding them to the front of the register and shifting |
| CrcBits.ShiftsInjective | src/runtime/utils/crc.c:29-31 | shifting forgets nothing when the polynomial ends in a one |
| CrcBits.BurstsDetectedIff | src/runtime/utils/crc.c:92-130 | all differences as wide as the register are detected if and only if the polynomial ends in a one |
| CrcBits.ResidueIsZero | src/runtime/utils/crc.c:92-130 | a message followed by its own check value leaves the register at zero |
| Crc.CrcUnit.constructor | src/runtime/utils/crc.c:64-71 | a new unit has the table of its polynomial |
| Crc.CrcUnit.FillTable | src/runtime/utils/crc.c:25-62 | the loops fill in the table of the current polynomial |
| Crc.CrcUnit.SetPolynomial | src/runtime/utils/crc.c:73-78 | the table follows the polynomial |
| Crc.CrcUnit.SetInitialValue | src/runtime/utils/crc.c:80-84 | the initial value changes and the table stays right |
| Crc.CrcUnit.SetFinalXor | src/runtime/utils/crc.c:86-90 | the final mask changes and the table stays right |
| Crc.CrcUnit.Calculate | src/runtime/utils/crc.c:92-130 | the table-driven value of every message equals the bit-at-a-time value, for all four widths and every polynomial, initial value and final mask |
| Crc.CrcUnit.Update | src/runtime/utils/crc.c:95-128 | one table lookup feeds one byte to the bit-at-a-time register |
| Crc.BurstDetected | src/runtime/utils/crc.c:92-130 | messages that differ only within one register width get different values when the polynomial ends in a one |
| Crc.BurstMissed | src/runtime/utils/crc.c:92-130 | otherwise every burst has a different partner with the same value |
| Crc.DetectsBurstsIff | src/runtime/utils/crc.c:92-130 | in every context all bursts are detected if and only if the bit shifted in last is set in the polynomial |
| Crc.Crc8And16DetectBursts | src/runtime/utils/crc.c:92-110 | CRC-8 tells messages apart that differ in one byte, CRC-16 those that differ within two neighbouring bytes |
| Crc.Crc32DetectsBurstsIff | src/runtime/utils/crc.c:112-120 | the configurable CRC-32 detects all four-byte bursts if and only if the top bit of the polynomial is set |
| Crc.DefaultCrc32And64MissBursts | src/runtime/utils/crc.c:44-60 | the polynomials in use for CRC-32 and CRC-64 miss some |
| CrcRemainder.RegisterIsRemainder | src/runtime/utils/crc.c:25-130 | the register is a remainder of the message, with the initial value added to its front, on division by the polynomial |
| CrcRemainder.RemainderUnique | src/runtime/utils/crc.c:25-130 | there is only one such remainder |
| CrcRemainder.ValueIsRemainder | src/runtime/utils/crc.c:92-130 | for all four widths and every polynomial, initial value and final mask, the value of a message is that remainder with the mask added, and no other register is |
| FrameStream.ParseConcat | src/runtime/network/message_handler.c:114-148 | parsing a stream in two pieces finds the messages of the whole |
| FrameStream.LeftoverUndecided | src/runtime/network/message_handler.c:114-148 | at most 258 bytes wait after a pass, and no pass over them alone finds anything |
| FrameStream.ChunkingIrrelevant | src/runtime/network/message_handler.c:100-148 | however a stream is cut into chunks of at most 254 bytes, the messages are those of the whole stream |
| FrameStream.LargerChunksLoseMessages | src/runtime/network/message_handler.c:100-112 | for every larger chunk bound some stream loses a message to the overflow reset |
| FrameStream.RoundTripIff | src/runtime/network/network_handler.c:134-144 | a payload comes back from its frame if and only if it has at most 251 bytes |
| FrameStream.PrintedAllParse | src/runtime/network/network_handler.c:134-144 | the frames of any list of such payloads parse back to the list with nothing left |
| FrameStream.EndToEnd | src/runtime/network/network_handler.c:134-144 | frames built by the sender and received in any chunks of at most 254 bytes deliver exactly the payloads in order |
| FrameStream.NoiseSkipped | src/runtime/network/message_handler.c:114-148 | bytes before the first start marker change nothing |
| FrameScan.ParseScans | src/runtime/network/message_handler.c:114-148 | for any bytes: the messages are the payloads of frames with start marker, length and matching sum that do not overlap; no such frame before the place where the parser stops is missed unless it starts inside one that is taken; and it stops at the first place outside them from which too few bytes are left |
| FrameScan.DeliveredIsGenuine | src/runtime/network/message_handler.c:114-148 | every message delivered has a frame with a matching checksum in the stream |
| FrameScan.ChunksScanned | src/runtime/network/message_handler.c:100-148 | the same for a stream that arrives in any chunks of at most 254 bytes |
| FrameScan.OverflowForgets | src/runtime/network/message_handler.c:100-112 | a chunk that does not fit is lost together with all that waited, and reception starts afresh |
| FrameScan.SumNotices | src/runtime/network/network_handler.c:42-46 | a change of one byte always changes the sum |
| FrameScan.SumIsTotal | src/runtime/network/network_handler.c:42-46 | the sum is the total of the bytes modulo 256 |
| FrameScan.DamagedNotDelivered | src/runtime/network/message_handler.c:117-138 | a sent frame with one byte of payload or checksum changed delivers nothing of its length |
| MessageHandler.Receiver.HandleResponse | src/runtime/network/message_handler.c:100-112 | the receive buffer and the routed messages move as the chunk function says, including the overflow reset |
| MessageHandler.Receiver.ProcessRxBuffer | src/runtime/network/message_handler.c:114-148 | one pass routes the parsed messages and keeps exactly the leftover |
| MessageHandler.Receiver.Examine | src/runtime/network/message_handler.c:117-138 | one turn of the loop neither loses nor invents a message, and waits only where nothing can be decided |
| MessageHandler.Receiver.Decide | src/runtime/network/message_handler.c:117-138 | the tests of the loop tell a whole frame, an incomplete one and anything else apart |
| MessageHandler.Receiver.Discard | src/runtime/network/message_handler.c:138-147 | the processed bytes leave the front of the buffer |
| NetworkHandler.Transmitter.Send | src/runtime/network/network_handler.c:48-62 | frames queue in order, cut at 255 bytes; refused if and only if empty or 15 already wait |
| NetworkHandler.Transmitter.SendDiagnosticResponse | src/runtime/network/network_handler.c:134-144 | the queued frame is the printed form of the payload |
| NetworkHandler.Transmitter.Process | src/runtime/network/network_handler.c:64-79 | frames leave first in, first out, and only when the driver takes them |
| NetworkHandler.CalcChecksum | src/runtime/network/network_handler.c:42-46 | the loop computes the sum that the receiver checks |
| RouteTable.NewestInBucket | src/runtime/diagnostic/route_table.c:46-59 | looking into the one bucket finds what looking through all routes finds |
| RouteTable.WithoutNewestInBucket | src/runtime/diagnostic/route_table.c:30-44 | removing from the one bucket removes from the whole table and from no other bucket |
| RouteTable.RunIsStacks | src/runtime/diagnostic/route_table.c:13-44 | after any adds and removes each pair holds a stack of exactly its own adds not yet removed |
| RouteTable.NewestIsTop | src/runtime/diagnostic/route_table.c:46-59 | a lookup answers the top of that stack, and nothing if and only if it is empty |
| RouteTable.UnlinkHolds | src/runtime/diagnostic/route_table.c:34-41 | redirecting one link takes exactly one entry out of its chain, whose indices keep falling |
| RouteTable.Table.constructor | src/runtime/diagnostic/route_table.c:8-11 | a new table has no routes |
| RouteTable.Table.Walk | src/runtime/diagnostic/route_table.c:34-57 | the walk along the chain ends and stops at the newest match |
| RouteTable.Table.Find | src/runtime/diagnostic/route_table.c:46-59 | the newest route of the pair is found, and none if and only if there is none |
| RouteTable.Table.Add | src/runtime/diagnostic/route_table.c:13-28 | the route becomes the newest; refused if and only if all entries have been handed out |
| RouteTable.Table.Remove | src/runtime/diagnostic/route_table.c:30-44 | just the newest route of the pair goes; answers whether there was one |
| E2eProtection.AcceptedIff | src/runtime/safety/e2e_protection.c:134-193 | after `j` accepted frames any frame at all is accepted if and only if it is in time, has the right id and length, number `j + 1` modulo the counter range, and the check value of its own data |
| E2eProtection.AnswerIff | src/runtime/safety/e2e_protection.c:134-193 | for each of the five answers when a frame gets it, and the phase left behind |
| E2eProtection.ProtectAnswerIff | src/runtime/safety/e2e_protection.c:90-132 | protecting fails if and only if the configuration or the length is not usable, and then changes nothing |
| E2eProtection.ValidIff | src/runtime/safety/e2e_protection.c:134-193 | after any run the receiver is in the valid phase if and only if the last usable frame was accepted |
| E2eProtection.DamagedDataAcceptedIff | src/runtime/safety/e2e_protection.c:134-193 | when only the data change, the frame is accepted if and only if it is in time, it is its turn modulo the range, and the check value is the same for both |
| E2eProtection.DamagedNumberAcceptedIff | src/runtime/safety/e2e_protection.c:134-193 | when only the number changes, the frame is accepted if and only if the new number is the awaited one, whichever frame it is |
| E2eProtection.RunCountsUp | src/runtime/safety/e2e_protection.c:134-193 | the same from any number of frames accepted before, with the counter the receiver is left with |
| E2eProtection.AcceptedCountUp | src/runtime/safety/e2e_protection.c:80-193 | under any loss, repetition, reordering and change of any field of what a sender produces, the frames accepted count up by one modulo the range and have the check value of their data; those whose number is unchanged were sent in the awaited place modulo the range |
| E2eProtection.DuplicateRejected | src/runtime/safety/e2e_protection.c:134-193 | a frame just accepted is rejected when it comes again, for every range of at least 2 |
| E2eProtection.LosslessAccepted | src/runtime/safety/e2e_protection.c:80-193 | what a sender produces is accepted in full when it arrives in order and in time |
| E2eProtection.GapRejectsUntilWrap | src/runtime/safety/e2e_protection.c:134-193 | after a gap everything is rejected until the number has come round |
| E2eProtection.WrapAccepted | src/runtime/safety/e2e_protection.c:155-160 | a gap of exactly the counter range goes unnoticed |
| E2eProtection.LateForGood | src/runtime/safety/e2e_protection.c:142-147 | once one frame is late every later one is late until the clock comes round |
| E2eProtection.ProtectNumbers | src/runtime/safety/e2e_protection.c:90-132 | over any run of calls, refused ones included, the frames produced carry the accepted data in order and the numbers that follow one another modulo the range |
| E2eProtection.State.constructor | src/runtime/safety/e2e_protection.c:80-88 | a new state has counter and time zero |
| E2eProtection.State.Protect | src/runtime/safety/e2e_protection.c:90-132 | the object moves as the protecting function says and fails exactly when the configuration or the length is refused |
| E2eProtection.State.Check | src/runtime/safety/e2e_protection.c:134-193 | the object moves as the checking function says |
| FlowMonitor.ValidateFlow | src/runtime/safety/flow_monitor.c:164-194 | answers true if and only if the end is reachable along expected successors, reads out of bounds if and only if the walk strays first, and takes at most as many steps as there are checkpoints |
| FlowMonitor.CycleNeverEnds | src/runtime/safety/flow_monitor.c:175-191 | a walk that meets a visited checkpoint never reaches the end |
| FlowMonitor.NeverEscapesIff | src/runtime/safety/flow_monitor.c:164-194 | no walk reads out of bounds if and only if there are at most 256 checkpoints and every expected successor exists or the walk stops there |
| FlowMonitor.AcceptedIsPath | src/runtime/safety/flow_monitor.c:66-131 | in every run the accepted checkpoints form a path of allowed transitions; anything may follow checkpoint 0 |
| FlowMonitor.StackMatchesCalls | src/runtime/safety/flow_monitor.c:66-131 | in every run the stack is as deep as calls exceed returns, never too deep, and every known checkpoint is accepted or counted as an error |
| FlowRuns.AnswerIff | src/runtime/safety/flow_monitor.c:66-131 | for each of the five answers when a reported checkpoint gets it |
| FlowRuns.AcceptedInFullIff | src/runtime/safety/flow_monitor.c:66-131 | a run is accepted in full if and only if every checkpoint is known, follows the one before, is in its time window, and calls and returns keep the stack between empty and the allowed depth |
| FlowRuns.StackHoldsCallers | src/runtime/safety/flow_monitor.c:97-124 | after any run the stack holds at every depth the checkpoint from which the call was made that is still open there |
| FlowMonitor.Watch.constructor | src/runtime/safety/flow_monitor.c:40-57 | a new monitor has no errors and an empty stack |
| FlowMonitor.Watch.Check | src/runtime/safety/flow_monitor.c:66-131 | the object moves as the reporting function says |
| NetBuffer.NothingLostOrReordered | src/runtime/network/net_buffer.c:42-150 | in every run of writes, reads, peeks and resets, what went in is what was read or reset away followed by what is still there |
| NetBuffer.ServedIff | src/runtime/network/net_buffer.c:57-150 | a write is served if and only if it is not empty and there is room, a read or a peek if and only if that many bytes are there; otherwise the contents stay |
| NetBuffer.OverflowIff | src/runtime/network/net_buffer.c:42-91 | after any run the overflow flag is set if and only if a write found no room, or it was set before, and no reset came since |
| NetBuffer.StoredExtends | src/runtime/network/net_buffer.c:67-84 | bytes written round the end extend the contents and change nothing else of them |
| NetBuffer.WindowSplits | src/runtime/network/net_buffer.c:105-121 | reading round the end takes a prefix and leaves the rest |
| NetBuffer.Ring.IndicesAgree | src/runtime/network/net_buffer.c:57-125 | the write index is the read index plus the count, modulo the size |
| NetBuffer.Ring.constructor | src/runtime/network/net_buffer.c:7-23 | a new buffer is empty |
| NetBuffer.Ring.Reset | src/runtime/network/net_buffer.c:42-55 | empties the buffer and clears the overflow flag |
| NetBuffer.Ring.Write | src/runtime/network/net_buffer.c:57-91 | appends to the queue, or changes nothing but the overflow flag |
| NetBuffer.Ring.Read | src/runtime/network/net_buffer.c:93-125 | removes exactly the prefix it returns |
| NetBuffer.Ring.Peek | src/runtime/network/net_buffer.c:127-150 | returns the prefix a read would return and changes nothing |
| DiagResponse.EveryRequestCalledBackOnce | src/runtime/diagnostic/diag_response.c:77-241 | in every run and for every message id the accepted requests are called back once each and in order, but for the one still pending |
| DiagResponse.RequestTakenIff | src/runtime/diagnostic/diag_response.c:77-135 | after any run a request is taken if and only if it has a callback, gets a timer, no earlier one of its id is open, and fewer than 16 ids are open |
| DiagResponse.PendingIff | src/runtime/diagnostic/diag_response.c:216-224 | a request is pending if and only if an active slot holds it |
| DiagResponse.PendingSize | src/runtime/diagnostic/diag_response.c:91-104 | there are as many pending requests as active slots, so the table is full only when all are active |
| DiagResponse.Table.constructor | src/runtime/diagnostic/diag_response.c:38-51 | a new table has nothing pending |
| DiagResponse.Table.FindQueueEntry | src/runtime/diagnostic/diag_response.c:216-224 | the search up to the high-water mark misses no pending request |
| DiagResponse.Table.QueueResponse | src/runtime/diagnostic/diag_response.c:77-135 | accepted if and only if there is a callback, a timer, room and no pending request of that id |
| DiagResponse.Table.HandleResponse | src/runtime/diagnostic/diag_response.c:137-214 | a pending request is called back with its own context and forgotten; others are refused |
| DiagResponse.Table.CleanupQueueEntry | src/runtime/diagnostic/diag_response.c:226-241 | clears one slot and lowers the mark no further than every active slot allows |
| ResponseTimers.TableFollows | src/runtime/diagnostic/diag_response.c:77-214 | over every run of requests, answers and expiring timers the pending requests are those of the table |
| ResponseTimers.RunSound | src/runtime/diagnostic/diag_response.c:77-214 | in every run a pending request has its own timer running, the newest of those for its id |
| ResponseTimers.HitsOtherIff | src/runtime/diagnostic/diag_response.c:179-214 | in every reachable state a timer calls back another request than its own if and only if its id is pending and a newer timer for the id is running |
| ResponseTimers.ReuseHit | src/runtime/diagnostic/diag_response.c:77-214 | a request accepted under an id whose earlier timer still runs is ended by that timer while its own keeps running |
| ResponseTimers.AlwaysCleanIff | src/runtime/diagnostic/diag_response.c:77-214 | whichever timer expires at whatever point of a run it ends no other request than its own, if and only if no id is used again while a timer for it is running |
| Lexer.SkipStops | src/compiler/frontend/lexer.c:95-124 | what follows the skipped part is neither white space nor a comment |
| Lexer.SkippedIsFiller | src/compiler/frontend/lexer.c:95-124 | what is skipped is white space and line comments only |
| Lexer.TokenIsMaximal | src/compiler/frontend/lexer.c:140-163 | words and numbers are as long as possible, other tokens one character |
| Lexer.KindIff | src/compiler/frontend/lexer.c:140-181 | for each kind when the next token has it, read off its text |
| Lexer.TruePosition | src/compiler/frontend/lexer.c:95-181 | the line of an index counts the line ends before it, the column the characters since the last one |
| Lexer.TokensCover | src/compiler/frontend/lexer.c:126-181 | tokens and filler together are the whole source |
| Lexer.TokensAreFew | src/compiler/frontend/lexer.c:126-181 | the end is reached after at most as many tokens as characters |
| Lexer.RelexingRoundTrip | src/compiler/frontend/lexer.c:126-181 | printing the tokens of any source with spaces and lexing again gives the same tokens |
| Lexer.SkipPositionTrue | src/compiler/frontend/lexer.c:95-124 | the line is always true, and the column is true after skipping if and only if the source does not end in a comment |
| Lexer.CheckKeyword | src/compiler/frontend/lexer.c:69-77 | exactly the listed words are keywords |
| Lexer.Lexer.constructor | src/compiler/frontend/lexer.c:79-89 | a new lexer stands at line 1, column 1 |
| Lexer.Lexer.SkipWhitespace | src/compiler/frontend/lexer.c:95-124 | the loop skips exactly the filler and tracks the position the functions describe |
| Lexer.Lexer.NextToken | src/compiler/frontend/lexer.c:126-181 | the next token has the right extent and kind, its true line and column, and errors are recorded for invalid characters only |
| Lexer.Tokenize | src/compiler/frontend/lexer.c:126-181 | repeated calls end and yield exactly the tokens of the source, disjoint, in order and truly located |
| Peephole.AndPredecessorIff | src/compiler/analysis/peephole.c:239-243 | a positive number shares no bit with its predecessor if and only if it is a power of two |
| Peephole.CountTrailingZeros | src/compiler/analysis/peephole.c:245-252 | counts the trailing zeros; for a power of two that is its exponent |
| Peephole.IsPowerOfTwo | src/compiler/analysis/peephole.c:239-243 | accepts exactly literals that are powers of two |
| Peephole.ShiftLeftMultiplies | src/compiler/analysis/peephole.c:181-191 | a bitwise left shift is a multiplication modulo 2^64 |
| Peephole.ShiftRightDivides | src/compiler/analysis/peephole.c:193-203 | a bitwise right shift is a division |
| Peephole.ShiftReplaces | src/compiler/analysis/peephole.c:181-203 | the shift by the exponent gives what the multiplication or division by the literal gave |
| Peephole.RewritingKeepsValues | src/compiler/analysis/peephole.c:175-211 | rewriting a node keeps the value of every node of the graph, for all operand values, also where nodes are shared |
| Peephole.RewritingRemovesHeavy | src/compiler/analysis/peephole.c:175-211 | each rewriting leaves exactly one multiplication or division less |
| Peephole.RewritingEndsAndKeepsValues | src/compiler/analysis/peephole.c:104-129 | any sequence of rewritings is at most as long as the number of multiplications and divisions, and keeps all values |
| Peephole.ReduceStrength | src/compiler/analysis/peephole.c:175-211 | the in-place handler rewrites its node if and only if it is reducible and touches nothing else |
| Peephole.OptimizeBlock | src/compiler/analysis/peephole.c:93-129 | the passes end, every change is a rewriting, and no node of the block can be rewritten afterwards |

## Left out

- Memory contents, guard words, block owner fields, statistics, leak tracking, `Memory_Calloc`, `Memory_AllocAligned` and `Memory_Deinit`: the outcome of a guard check is a parameter, the rest does not touch the list.
- HeapList.Heap.Realloc: copying the old contents to a new block is not modelled, and a request that a pool serves is answered with nothing instead of the pool block.
- HeapList.Heap.CheckIntegrity: models the check of the heap blocks, not that of the pools; the link checks cannot fail on the linked lists it is called on.
- Pool.MemoryPool.constructor: block memory whose total size wraps in 32 bits is not modelled.
- Builds with other pointer sizes: the heap constants are those of a 64-bit build.
- Uninitialised modules, null pointers and failed allocations of the modules themselves: each object exists once it is constructed.
- Critical sections, timers, clocks, the CAN driver and logging: every call is one atomic step, and times and driver answers are parameters.
- HeapList.Heap.SplitBlock: block headers are separate objects, so the list after a tight split is not the one in memory; `HeapOverlap` finds headers by their addresses and shows the exact fit, but not a partial overlap byte by byte.
- HeapUse.HandedOutBlockStays: promises nothing about a run once a split was tight, since the code can then destroy a live block.
- HeapUse.AllocUses: promises nothing about a tight split, for the same reason.
- HeapUse.ResizeUses: promises nothing about a tight split, for the same reason.
- HeapLayout.RunKeepsNoFreePair: promises nothing about a run once a split was tight, for the same reason.
- The flow-control frames of `isotp.c`, which the code ignores, the UDS handler behind a delivered request (its answer is a parameter), and the bytes of the response frames of `diag_transport.c`, whose sending is a placeholder there.
- IsoTp.Isotp.TransmitAll: sends the consecutive frames as soon as bytes remain, without waiting for flow control.
- Frames shorter than eight bytes: a frame always holds eight data bytes, and only a length of zero is treated differently.
- NetworkHandler.Transmitter.SendDiagnosticResponse: requires that frame and payload fit the local buffer of 270 bytes; the code does not check it.
- The second frame parser inside `network_handler.c`, its receive buffer and its flow control; the send table and retries of `message_handler.c`.
- The end marker of a frame: neither the parser nor the model looks at it.
- E2eProtection.State.Protect: requires a counter range above zero, which the code divides by unchecked.
- The check value over the header in `e2e_protection.c`, which is overwritten before use, and the partly filled tables behind it: the check value is an arbitrary function of the data.
- FlowMonitor.Watch.constructor: requires a configured depth of at most 32, the size of the stack array; the code does not check it.
- Error counters are unbounded numbers.
- ResponseTimers.AlwaysCleanIff: timers may expire in any order and at any time; the clock, the common timeout and the limit on the number of timers are not modelled.
- Callbacks that call back into the response table, `DiagResponse_Deinit`, and the statistics of that module.
- NetBuffer.Ring.constructor: a size of zero, which the code refuses, is not constructed.
- The keyword list of the lexer is searched as a list of words; token kinds that the lexer never produces, the token text buffer and the table of kind names are not modelled.
- Peephole.OptimizeBlock: runs the one pattern alone over a fixed sequence of nodes instead of following `next` links, since the other handlers and most matchers have no visible or no sound body; it takes every node as a candidate.
- The rest of the compiler (parser, IR construction beyond constants, pattern optimiser, code generators), the other protocols, drivers, storage, security access and monitoring modules: mostly stubs, input and output, or flat searches.
