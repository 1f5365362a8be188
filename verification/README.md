# Verified model of Proto-SIPE

Proto-SIPE moves user buffers between two machines. A driver pins a buffer and programs a list of page
addresses into a card; the card gathers the pages through a 4 KB bounce buffer and frames them onto a
socket; the card at the other end scatters them into a buffer with its own pages and offset. Drivers queue
such transfers and complete them from an interrupt. One application splits a matrix multiply over several
cards. This project models the four parts in Dafny and proves what each is for.

| file | what it models |
|---|---|
| `Arith.dfy`, `Bytes.dfy`, `Options.dfy` | division by a page size, little-endian integers, an option type |
| `Wire.dfy` | request words, length reply, length-prefixed page frames |
| `PageWalk.dfy` | which physical address each byte of a run is read from or written to |
| `Device.dfy` | the card: DMA engine, socket proxy, run loops, registers, interrupt flag, as one mutable object |
| `Driver.dfy` | page counting, scatter list, register programming, send and receive requests, acknowledgement |
| `Copy.dfy` | the end-to-end copy, and exactly when it is right |
| `Jobs.dfy` | a driver's request, run on the card, against the moves of one job in `Protocol.dfy` |
| `Transfers.dfy` | two machines with memories, any list of transfers between their buffers, in any interleaving |
| `Card.dfy` | the card of `QueueSystem.dfy` against the card of `Device.dfy` |
| `Offload.dfy` | the matrix multiply's transfers on the wire, and when all of them complete |
| `Protocol.dfy` | two cards exchanging any list of transfers, as a step system over two byte streams |
| `OpsQueue.dfy` | the driver's queue, as functions on values and as an object proved to compute them |
| `QueueSystem.dfy` | queue, card, interrupt handler, waiters and flushes in any interleaving |
| `Matmul.dfy` | the triple loop, the chiplet's loop, the partition, and the farm of devices in any order |

## Main results

1. **Copy.** A send on one side and a receive on the other leave the destination's user buffer equal to the
   source's, byte for byte, and change no other destination byte, for all page tables, offsets and lengths
   over distinct destination pages (`Copy.CopyBuffer`), in either of two cases: each buffer starts inside a
   page or has physically consecutive pages; or both start on a page boundary and their pages lie in the same
   pattern, at equal distances from the first and within the buffer's length. The condition is the code's,
   not the model's: a run whose first handle is page-aligned never looks at the other handles
   (`PageWalk.WalkIsListed`), and two such runs can go astray together (`Copy.AstrayTogetherExample`). It is
   exact: over distinct pages at both ends the copy is right for all contents if and only if one of the two
   cases holds, for handle lists (`Copy.CopyCorrectIff`) and for page tables (`Copy.UserCopyCorrectIff`);
   `Copy.CopyCorrectIffMatched` gives the condition for any two lists, distinct pages or not.
   The same for whole lists of transfers between buffers of two machines, in any interleaving: the memories
   develop as if the transfers were done one after the other (`Transfers.HistoryMemory`, `HistoryEnds`), and
   a completed receive has put into its buffer what the sender's buffer held while it was sent
   (`HistoryCopies`).
2. **Protocol.** For any two complementary lists of non-empty transfers and any interleaving of single socket
   calls, each stream holds exactly what its reader is due and its writer has written; no request is thrown
   away, no transfer refused, nobody is more than one transfer ahead, nobody gets stuck, every run is finite,
   and at the end every receive delivered exactly what was sent. With an empty transfer anywhere in the lists
   every run is finite too, but none finishes both ends: the sender completes it, the receiver waits for a
   frame (`Protocol.EmptyNeverFinishes`, `FinishesIffNoneEmpty`). A request of the driver, run on the card,
   does on the socket exactly what the moves of one such transfer do (`Jobs.SendIsJob`, `Jobs.ReceiveIsJob`).
3. **Queue.** In every interleaving of submit, start, end of run, interrupt, acknowledgement, advance, wait
   and flush, flushes of operations in flight included: completions come in submission order, every handle is
   completed, active or flushed, pages are pinned exactly while queued, nothing waited for is freed, and no
   wait returns before completion (`QueueSystem.RunBooks`, `RunLeaves`). As long as no operation in flight is
   flushed, exactly one stage of one transfer is under way while the queue is non-empty, and it is the head's
   (`RunSafety`, `RunSteps`). A flush keeps this agreement of queue and card exactly when nothing is queued or
   some thread waits for the head (`FlushInv`); `UnsafeFlushExample` is a run in which it is lost. Each
   step changes what a lookup finds exactly as it should, and every waiting thread can return in the end
   (`EnterCounts`, `LeaveCounts`, `SubmitCounts`, `NextCounts`, `FlushCounts`, `WaiterReturns`). `Card.dfy`
   shows that the system's starts, runs, interrupts and acknowledgements are what register accesses do, and in
   which order others see them.
4. **Matmul.** The triple loop, the chiplet's loop and the farm of any number of devices, with transfers in
   any order, compute the same matrix for arbitrary addition and multiplication: each element of C plus the
   products of its row and column, first to last (`Matmul.ProductIsFold`). On the wire, whatever the
   interleaving on each link, master and chiplets all finish if and only if there are at least as many
   elements as devices and the inner dimension is not 0; then each chiplet has got its operands and slice, and
   what it computes from the bytes it got and the master reads back is the product
   (`Offload.OffloadFinishesIff`). Otherwise some transfer is empty.

Assumptions: `send` and `recv` move the requested bytes in order and sends do not block; both machines use one
page size, a power of two (the engine masks with it; `Mod` stands for that) and at most 4 KB; lengths are
below 2^32, and positive except where empty transfers are named; page addresses are nonzero, page-aligned and below 2^32; pinning gives one segment a
page and mapping preserves addresses; starting an operation succeeds; the lookup and the count of a waiter are
one step, and so are the decrement of the count and the unlinking of a completed operation, for which
`psipe_ops_wait` takes no lock (psipe_queue.c:117-120). A receive that would block is expressed by a
precondition that the bytes are on the stream; `Protocol.dfy` shows that they come. The two levels speak of
the same bytes, as `Jobs.dfy` proves.

What the model shows about the code, besides: reading the available-length register of a sending card issues
a request even while a run is in progress, as reads pass no idle check (`Device.PSIPEDevice.MmioRead`); the
mode register reads back 0 after a nonzero write; `psipe_dma_begin_run` resets the cursor even when it
refuses; `psipe_dma_next_addr` could return the entry after the last handle, but no list the driver programs
gets there; the page count is exact up to 2^31 - 1 pages, and a buffer of 2^32 + 1 pages passes for one page
(`Driver.PinCountWrapsExample`); an empty buffer is refused on a page boundary and accepted as one page off it.

## Model

| member | source | states |
|---|---|---|
| Arith.DivModAgree | src/hw/dma.c:80-85 | the page number and page offset used throughout are quotient and remainder |
| Bytes.LeByte | src/hw/proxy.c:135-144 | integers lie on the stream least significant byte first: byte k is worth 256^k |
| Wire.WordRoundTrip | src/hw/proxy.c:135-144 | a request word or frame header is read back as written |
| Wire.LongRoundTrip | src/hw/proxy.c:112-119 | the 8-byte available length is read back as written |
| Wire.ChunksStep | src/hw/dma.c:84-86 | the next piece of a run is one page or all that is left |
| Wire.ChunksConcat | src/hw/psipe.c:122-127 | cutting a buffer into pages loses and reorders nothing |
| Wire.ChunksCount | src/hw/psipe.c:122-127 | a run of len bytes has ceil(len / page size) frames |
| Wire.ChunksSizes | src/hw/psipe.c:122-127 | every frame is a full page except possibly the last, and none is empty |
| Wire.PageSizedCount | src/hw/psipe.c:122-127 | full pages and at most one shorter last one are as many as their bytes need, and none for no bytes |
| Wire.ParseOne | src/hw/proxy.c:165-177 | one frame is taken off the front of a stream, whatever follows; an empty one stops the reader |
| Wire.FramesRoundTrip | src/hw/proxy.c:165-196 | any list of non-empty chunks is parsed back from its frames, with whatever follows left untouched |
| PageWalk.OnTrackInit | src/hw/dma.c:40-45 | a run starts at byte 0 of the closed-form walk |
| PageWalk.ChunkOffset | src/hw/dma.c:84-85 | the in-page offset at the start of every chunk is the buffer's |
| PageWalk.ChunkHasNext | src/hw/dma.c:59-66 | a chunk that straddles finds another handle below npages, and it is nonzero |
| PageWalk.ChunkWalk | src/hw/dma.c:88-102 | byte i of a chunk is accessed at the current address or on the next handle's page, as the closed form says |
| PageWalk.StepOnTrack | src/hw/dma.c:88-106 | a page step lands on the closed form again; an unaligned run ends on handle npages-1 |
| PageWalk.ConsecutiveWalk | src/hw/dma.c:88-91 | an aligned run over consecutive pages touches the listed addresses |
| PageWalk.WalkIsListed | src/hw/dma.c:77-107 | the engine accesses the bytes its handle list denotes if and only if the first handle is unaligned or the pages are consecutive |
| PageWalk.AlignedRunMisreads | src/hw/dma.c:88-91 | outside that condition some memory shows a run reading other bytes than the list's |
| PageWalk.AlignedRunMisreadsExample | src/hw/dma.c:88-91 | a concrete two-page list where it happens |
| PageWalk.DistinctPagesInjective | src/hw/dma.c:112-144 | over distinct pages a run touches no address twice |
| PageWalk.ChunkInjective | src/hw/dma.c:125-139 | within one page step no address is touched twice, whatever the pages |
| Device.LowAddressSelectsNothing | src/hw/mmio.c:29-43 | a write below the handle area selects no handle in spite of wrap-around and truncation |
| Device.HandleAreaSelects | src/hw/mmio.c:29-32 | an address in the handle area selects its 4-byte slot |
| Device.StepCursor | src/hw/dma.c:59-106 | one page step sees the buffer's offset, never exhausts the list, and stays on the closed form |
| Device.StepPeeks | src/hw/dma.c:88-102 | the one or two reads of a step are the next bytes of the walk |
| Device.StepStored | src/hw/dma.c:125-139 | the one or two writes of a step store the chunk along the walk and change nothing else |
| Device.ScatteredStep | src/hw/psipe.c:141-146 | one more page step extends the scattered prefix |
| Device.PSIPEDevice.constructor | src/hw/dma.c:181-197 | the reset state: idle, nothing configured, buffer and handles zero |
| Device.PSIPEDevice.DmaRead | src/hw/dma.c:47-51 | reads into its place in the bounce buffer and nowhere else, refusing what does not fit |
| Device.PSIPEDevice.DmaWrite | src/hw/dma.c:53-57 | writes from the bounce buffer, refusing what does not fit |
| Device.PSIPEDevice.NextAddr | src/hw/dma.c:59-66 | the entry after the current one, even where that is the one past the array; 0 with the position unchanged once npages is reached |
| Device.PSIPEDevice.LoadBlocks | src/hw/dma.c:88-102 | fails exactly when the chunk exceeds the bounce buffer or straddles with no next handle; otherwise the bytes come from one or two blocks and the position moves only for the second |
| Device.PSIPEDevice.RxPage | src/hw/dma.c:77-107 | fails exactly then; gathers exactly the next bytes of the closed-form walk; counts down by what it returns, and not at all when it fails |
| Device.PSIPEDevice.StoreBlocks | src/hw/dma.c:125-139 | fails exactly when the chunk straddles with no next handle; otherwise one or two blocks are written and nothing else |
| Device.PSIPEDevice.TxPage | src/hw/dma.c:112-144 | fails exactly for an empty or failed chunk or for want of a next handle; stores the chunk along the closed-form walk and nowhere else; counts down with unsigned wrap, not at all when it fails |
| Device.PSIPEDevice.BeginRun | src/hw/dma.c:146-157 | the cursor is reset in any case; only a run in progress is refused; the change can be seen |
| Device.PSIPEDevice.EndRun | src/hw/dma.c:159-162 | the engine is idle, and can be seen to be |
| Device.PSIPEDevice.IrqRaise | src/hw/irq.c:88-94 | the flag is up, and can be seen to be |
| Device.PSIPEDevice.IrqLower | src/hw/irq.c:96-102 | the flag is down, and can be seen to be |
| Device.PSIPEDevice.IssueReq | src/hw/proxy.c:135-144 | one request word is sent |
| Device.PSIPEDevice.HandleReq | src/hw/proxy.c:101-128 | SLN is answered with RLN and the length, RLN takes the length off the stream |
| Device.PSIPEDevice.AwaitReq | src/hw/proxy.c:151-160 | words up to the awaited one, or the failure word, are discarded, and exactly those; success or failure accordingly |
| Device.PSIPEDevice.RxFrame | src/hw/proxy.c:165-177 | takes exactly one frame off the stream, as one step of the parser in `FramesRoundTrip`; a zero length fails |
| Device.PSIPEDevice.TxFrame | src/hw/proxy.c:182-196 | puts exactly one frame on the stream; a non-positive length fails |
| Device.SentStep | src/hw/psipe.c:122-127 | the next frame of a sending run continues the buffer's chunks |
| Device.PSIPEDevice.SendPage | src/hw/psipe.c:125-126 | one turn of the sending loop keeps framed bytes plus bytes left equal to the length, and the frames full pages as long as bytes are left |
| Device.PSIPEDevice.TransferPages | src/hw/psipe.c:114-131 | terminates for every configuration; bytes framed plus bytes left is the length even on failure; the frames are full pages with at most one shorter last one, and ceil(len / page size) of them when nothing is left; length 0 frames nothing; with a well-formed list the frames are the gathered buffer, whatever registers the guest writes meanwhile, and an unaligned run ends on the last handle; from begin to end the card is seen running, with its flag as it was, and then idle, with its flag still so |
| Device.PSIPEDevice.ReceivePage | src/hw/psipe.c:144-145 | one turn of the receiving loop |
| Device.PSIPEDevice.ReceivePages | src/hw/psipe.c:133-150 | consumes exactly the buffer's frames and scatters them along the walk, last write winning, nothing else changed; an unaligned run ends on the last handle; the flag is as it was at every page step and at the end of the run |
| Device.PSIPEDevice.Execute | src/hw/psipe.c:157-173 | a run in the configured direction; the flag goes up only when the card has been seen idle again, and is as it was before at every page step; sending nothing writes nothing and raises the interrupt all the same |
| Device.PSIPEDevice.WriteHandle | src/hw/mmio.c:34-43 | one handle is replaced, or nothing when the slot is beyond npages |
| Device.PSIPEDevice.MmioWrite | src/hw/mmio.c:80-118 | each register write changes its register and no other; a card that is not idle is not changed at all |
| Device.PSIPEDevice.GuestWrites | src/hw/mmio.c:89-90 | any sequence of register writes during a run modifies nothing |
| Device.PSIPEDevice.MmioRead | src/hw/mmio.c:45-78 | each register reads its value; the available length of a sending card is fetched from the peer |
| Driver.SegmentsTile | src/sw/kernel/psipe_dma.c:69-70 | the scatter list tiles the buffer in order, one page at most each, only the first off a page boundary |
| Driver.SegmentsCount | src/sw/kernel/psipe_dma.c:19-23 | segment i lies in page i, so there are last page - first page + 1 |
| Driver.PinCountIsSegments | src/sw/kernel/psipe_dma.c:19-23 | the count in ints is the true one modulo 2^32, right if and only if that fits an int |
| Driver.PinCountWraps | src/sw/kernel/psipe_dma.c:19-23 | 2^32 + 1 pages count as one page |
| Driver.PinCountWrapsExample | src/sw/kernel/psipe_dma.c:19-23 | a concrete buffer of that many pages |
| Driver.EmptyPinCount | src/sw/kernel/psipe_dma.c:19-23 | an empty buffer counts as no page on a page boundary and as one page off it |
| Driver.ToInt32Sub | src/sw/kernel/psipe_dma.c:20-22 | differences of truncated page numbers are truncated differences |
| Driver.PsipeDma.PinPages | src/sw/kernel/psipe_dma.c:14-83 | accepts exactly a count, taken in 32-bit ints, from 1 to the number of handles, and lists that many segments; below 2^31 pages these are all the buffer's |
| Driver.PsipeDma.MapPages | src/sw/kernel/psipe_dma.c:85-91 | one mapped segment per list entry |
| Driver.PsipeDma.WriteSetup | src/sw/kernel/psipe_dma.c:93-99 | sets the direction; length, page count, handles, cursor, streams, memory and flag stay as they were |
| Driver.PsipeDma.WriteMaps | src/sw/kernel/psipe_dma.c:101-117 | handle i is segment i's address for every i below nmapped; every other handle and register is as before |
| Driver.WrittenIsProgrammed | src/sw/kernel/psipe_dma.c:108-116 | nothing is lost in the 32-bit registers |
| Driver.ProgrammedWellFormed | src/sw/kernel/psipe_dma.c:101-117 | what the driver programs is a well-formed handle list |
| Driver.ListedIsTranslated | src/sw/kernel/psipe_dma.c:101-117 | the programmed list denotes the user's buffer byte for byte under the page table |
| Driver.CopySafeIsFollowsList | src/sw/kernel/psipe_dma.c:101-117 | that a run follows its list is something the user can check: an unaligned start or consecutive pages |
| Driver.PsipeDma.CheckSizeAvail | src/sw/kernel/psipe_module.c:49-52 | the length fits if and only if it is at most 32 bits of the peer's answer |
| Driver.PsipeDma.IoctlSend | src/sw/kernel/psipe_module.c:59-82 | refuses with EMSGSIZE after the request only, leaving all transfer registers alone, or emits the request and the frames of the programmed buffer and then interrupts; an empty buffer emits the request only and completes |
| Driver.PsipeDma.IoctlRecv | src/sw/kernel/psipe_module.c:84-106 | answers with its own length and scatters the sender's frames into the programmed buffer |
| Driver.CheckAndAck | src/sw/kernel/psipe_irq.c:14-25 | reports the flag and lowers it, unless the card is running |
| Copy.CopyBuffer | src/hw/psipe.c:114-150 | a send and a receive make the destination's user buffer equal to the source's and change nothing else, when the two buffers agree in the sense of `UserCopyCorrectIff` |
| Copy.UserBufferCopied | src/sw/kernel/psipe_module.c:59-106 | one copy in terms of the two users' virtual addresses |
| Copy.ScatterIsScattered | src/hw/psipe.c:141-146 | writing byte after byte along the walk meets the description of a receiving run |
| Copy.ScatteredIsScatter | src/hw/psipe.c:141-146 | and is the only memory that does |
| Copy.MatchedCopies | src/hw/psipe.c:114-150 | gather then scatter copies list to list, and changes nothing else, when the two walks permute their lists alike |
| Copy.UnservedMisses | src/hw/dma.c:88-91 | contents that show a byte copied wrongly, for any pair in which one is not served |
| Copy.StrayMisses | src/hw/dma.c:125-128 | contents that show a write to any given address of the destination's walk, in its list or not |
| Copy.CopyCorrectIffMatched | src/hw/dma.c:77-144 | for any two lists the copy is right for all contents, and changes nothing else, if and only if the walks permute their lists alike |
| Copy.FollowingMatches | src/hw/dma.c:77-144 | two runs that follow their lists do |
| Copy.CopyCorrectIffSourceFollows | src/hw/dma.c:77-107 | with a good destination, the copy is right for all contents, and touches nothing else, if and only if the source is unaligned or consecutive |
| Copy.CopyCorrectIffDestinationFollows | src/hw/dma.c:112-144 | with a good source, if and only if the destination is |
| Copy.LayoutByByte | src/hw/dma.c:88-91 | equal displacement page by page is equal displacement byte by byte |
| Copy.ReachIsListed | src/hw/dma.c:125-128 | a linear scatter whose pages all lie within its reach touches nothing outside its list |
| Copy.LinearMatches | src/hw/dma.c:88-91 | two aligned runs permute their lists alike if and only if every page lies equally far behind the first at both ends, within the run's reach |
| Copy.CopyCorrectIff | src/hw/dma.c:77-144 | over all pairs of lists of distinct pages the copy is right if and only if both runs follow their lists or the pages lie in the same pattern |
| Copy.AstrayTogetherExample | src/hw/dma.c:88-91 | two lists that neither run follows and the copy is right |
| Copy.DescribedPages | src/sw/kernel/psipe_dma.c:101-117 | what the page table says of the programmed list: its pages, whether they are distinct, and whether the run follows them |
| Copy.UserCopyCorrectIff | src/sw/kernel/psipe_module.c:59-106 | for all page tables, offsets and lengths the users' buffers are copied, and nothing else changed, if and only if both are safe or both lie in the same pattern |
| Protocol.JobMoves | src/hw/proxy.c:101-160 | once its next message is there an endpoint reads exactly it, writes exactly what is next, and leaves exactly the rest |
| Protocol.JobWaits | src/hw/proxy.c:87-99 | short of a whole message an endpoint waits |
| Protocol.JobAlone | src/hw/psipe.c:157-173 | with its input there, an endpoint's moves in a job read and write exactly what the job is due to read and write, and complete it |
| Protocol.AwaitRlnMoves | src/hw/mmio.c:67-72 | a sender waiting for the answer finds RLN |
| Protocol.ReadLenMoves | src/hw/proxy.c:117-120 | a sender reads its own job's length and is not refused |
| Protocol.AwaitSlnMoves | src/hw/psipe.c:164-166 | a receiver waiting for the request finds SLN |
| Protocol.ReplyMoves | src/hw/proxy.c:112-116 | the answer is RLN and then the receiver's length |
| Protocol.SendNothingMoves | src/hw/psipe.c:124-131 | an empty send ends with its first page step, which fails, and completes |
| Protocol.SendBodyMoves | src/hw/proxy.c:182-196 | a frame body is the next page of the data |
| Protocol.SendLastBodyMoves | src/hw/proxy.c:182-196 | the last body completes the job with nothing left to write or read |
| Protocol.RecvHeadMoves | src/hw/proxy.c:170-171 | a frame header announces the next page |
| Protocol.RecvBodyMoves | src/hw/proxy.c:173-176 | a frame body extends what has been received |
| Protocol.RecvLastBodyMoves | src/hw/psipe.c:146-148 | the last body completes the job, which has delivered the peer's data |
| Protocol.NextMessage | src/hw/proxy.c:151-160 | what arrives first is the message the reader expects |
| Protocol.MovesAreGood | src/hw/proxy.c:101-196 | every possible move keeps the endpoint sound, consumes what is due, writes what is owed, and lessens the work |
| Protocol.StepInv | src/hw/psipe.c:157-173 | every step of either endpoint keeps the stream invariant, reduces the work and discards no request |
| Protocol.AtMostOneAhead | src/hw/psipe.c:157-173 | neither endpoint is more than one transfer ahead |
| Protocol.OneJobMoves | src/hw/proxy.c:101-160 | within a transfer the endpoints never wait for each other |
| Protocol.BehindCanMove | src/hw/proxy.c:151-160 | the endpoint that is behind can always move |
| Protocol.NeverStuck | src/hw/proxy.c:151-160 | no state is stuck before both have finished, when no transfer is empty |
| Protocol.RunInv | src/hw/psipe.c:157-173 | every run keeps the invariant and is no longer than the initial work |
| Protocol.EveryRunFinishes | src/hw/psipe.c:157-173 | when no transfer is empty every run can be continued until both ends have finished |
| Protocol.RunSafety | src/hw/proxy.c:101-160 | in every state of every run: nobody refused, at most one ahead, each awaited word is the one that comes, the length read is the job's own |
| Protocol.FinishedDelivered | src/hw/psipe.c:114-150 | when no transfer is empty, a run that can go no further has delivered everything that was sent, in order, with empty streams |
| Protocol.NotStuck | src/hw/proxy.c:170-171 | a receiver of nothing that waits for a frame finds nothing to read |
| Protocol.BecomesLate | src/hw/psipe.c:133-150 | when the sender has completed an empty transfer, the receiver has answered and waits for a frame |
| Protocol.TakesWordForHeader | src/hw/proxy.c:165-177 | the request word of a later send is taken for a frame header of 4 bytes |
| Protocol.LateStep | src/hw/proxy.c:165-177 | from there the two ends make at most two more moves, whether the next transfer is a send or a receive |
| Protocol.EarlyStep | src/hw/psipe.c:157-173 | up to there the invariant of the lists up to the empty transfer is kept, and the receiver does not get past it |
| Protocol.RunBlocked | src/hw/psipe.c:157-173 | every run over lists with an empty transfer is finite and never completes its receiver's side |
| Protocol.EmptyNeverFinishes | src/hw/psipe.c:133-150 | an empty transfer anywhere, in either direction, keeps every run from finishing both ends |
| Protocol.FinishesIffNoneEmpty | src/hw/psipe.c:157-173 | a run that can go no further has finished both ends if and only if no transfer is empty |
| Jobs.SendAlone | src/sw/kernel/psipe_module.c:59-82 | the moves of a send, empty or not, read the peer's answer, write the request and the frames, and complete |
| Jobs.ReceiveAlone | src/sw/kernel/psipe_module.c:84-106 | the moves of a receive read the request and the frames, write the answer and deliver the data |
| Jobs.RefusedAlone | src/sw/kernel/psipe_module.c:66-67 | a send that is offered too little has read the answer and written the request only |
| Jobs.SendIsJob | src/sw/kernel/psipe_module.c:59-82 | the driver's send on the card reads and writes what those moves do, refused or not |
| Jobs.ReceiveIsJob | src/sw/kernel/psipe_module.c:84-106 | the driver's receive on the card reads and writes what those moves do, and scatters what they deliver |
| Transfers.StoreScatters | src/hw/psipe.c:141-146 | storing page after page as frames come is the scatter of the whole |
| Transfers.SequenceCopies | src/hw/psipe.c:114-150 | under the exact condition of the copy each transfer in a sequence makes the receiver's list equal to the sender's and changes nothing else |
| Transfers.MovesAsPlanned | src/hw/psipe.c:157-173 | a machine that sends from its memory moves as the protocol does with the bytes planned for it |
| Transfers.RamStep | src/hw/psipe.c:141-146 | every move keeps the memory at what completed transfers and the frames of the current one have put there |
| Transfers.MovesInv | src/hw/psipe.c:157-173 | every move of either machine is a step of the protocol and keeps both memories as they should be |
| Transfers.HistoryInv | src/hw/psipe.c:157-173 | every run of the machines is a run of the protocol |
| Transfers.HistoryMemory | src/hw/psipe.c:114-150 | whatever the interleaving, between transfers and while sending a machine's memory is the one the transfers leave when done one after the other |
| Transfers.HistoryEnds | src/hw/psipe.c:114-150 | a run that can go no further has done all transfers, with both memories as in sequence |
| Transfers.HistoryCopies | src/hw/psipe.c:114-150 | in any run a completed receive has made its buffer equal to what the sender's held during the send, and changed nothing else |
| OpsModel.WithoutAt | src/sw/kernel/psipe_queue.c:117-120 | unlinking by handle removes the one operation |
| OpsModel.FlushStep | src/sw/kernel/psipe_queue.c:186-205 | one turn of a flush loop keeps or frees the next operation |
| OpsQueue.PsipeOps.Init | src/sw/kernel/psipe_queue.c:55-85 | appends with the next handle; reports whether it must be started |
| OpsQueue.PsipeOps.Next | src/sw/kernel/psipe_queue.c:126-146 | completes the head, names the one to start, keeps handles distinct |
| OpsQueue.PsipeOps.Get | src/sw/kernel/psipe_queue.c:148-176 | returns an operation with the handle if and only if one is in either list |
| OpsQueue.PsipeOps.WaitEnter | src/sw/kernel/psipe_queue.c:113-114 | one more waiter on that operation and no other |
| OpsQueue.PsipeOps.WaitLeave | src/sw/kernel/psipe_queue.c:117-120 | one waiter less; the last one unlinks the operation |
| OpsQueue.PsipeOps.Unlink | src/sw/kernel/psipe_queue.c:118 | removes that operation and no other |
| OpsQueue.PsipeOps.FlushList | src/sw/kernel/psipe_queue.c:186-205 | the loop over a list keeps exactly the operations that are waited for, and takes the others off the pins |
| OpsQueue.PsipeOps.FlushActive | src/sw/kernel/psipe_queue.c:186-196 | keeps the queued operations that are waited for, unpinning the others |
| OpsQueue.PsipeOps.FlushInactive | src/sw/kernel/psipe_queue.c:197-205 | keeps the completed operations that are waited for |
| OpsQueue.PsipeOps.Flush | src/sw/kernel/psipe_queue.c:178-209 | both |
| QueueSystem.SubmitInv | src/sw/kernel/psipe_queue.c:55-85 | a submission keeps order, handles, pins and waiters, and the agreement of queue and card |
| QueueSystem.StartInv | src/sw/kernel/psipe_queue.c:77-82 | a start keeps both; under agreement it finds the card idle with its flag down, and is for the head |
| QueueSystem.CardInv | src/hw/mmio.c:89-98 | end of run, interrupt and acknowledgement keep both; under agreement the acknowledgement is never swallowed |
| QueueSystem.NextInv | src/sw/kernel/psipe_irq.c:34-51 | each handled interrupt completes the head; under agreement that is the operation the card has run |
| QueueSystem.GetFinds | src/sw/kernel/psipe_queue.c:148-176 | looking up a listed operation's handle finds that operation |
| QueueSystem.EnterCounts | src/sw/kernel/psipe_queue.c:113 | a thread that enters a wait is counted on that operation; every other lookup, and everything else, is as before |
| QueueSystem.EnterInv | src/sw/kernel/psipe_queue.c:113 | entering a wait keeps the books, and the agreement |
| QueueSystem.LeaveInv | src/sw/kernel/psipe_queue.c:114-120 | a waiter returns only after completion, and what others wait for stays |
| QueueSystem.CanLeave | src/sw/kernel/psipe_queue.c:114-115 | a thread that waits for a completed operation finds it and can return |
| QueueSystem.LeaveCounts | src/sw/kernel/psipe_queue.c:117-120 | its return is counted on that operation only; the last one takes the operation out of the lists and leaves all others |
| QueueSystem.SubmitCounts | src/sw/kernel/psipe_queue.c:71-75 | a submission is found under the new handle, unfinished and unwaited for; every other lookup is as before; it is to be started exactly when it is alone |
| QueueSystem.NextCounts | src/sw/kernel/psipe_queue.c:94-104 | a completion marks and moves the head; every other lookup is as before |
| QueueSystem.FlushCounts | src/sw/kernel/psipe_queue.c:186-205 | after a flush exactly what is waited for is found, as it was |
| QueueSystem.FlushInv | src/sw/kernel/psipe_queue.c:178-209 | every flush keeps order, handles, pins and waiters; it keeps queue and card in agreement if and only if nothing is active or some thread waits for the head |
| QueueSystem.UnsafeFlushExample | src/sw/kernel/psipe_queue.c:186-192 | a whole run from boot: flushing the operation in flight lets the next one complete without having run |
| QueueSystem.StepInv | src/sw/kernel/psipe_queue.c:55-209 | every step, any flush included, keeps order, handles, pins and waiters; any but an unsafe flush keeps the agreement |
| QueueSystem.RunInv | src/sw/kernel/psipe_queue.c:55-209 | the same for every state of every run |
| QueueSystem.RunBooks | src/sw/kernel/psipe_queue.c:55-209 | over every interleaving, any flush included: submission order, every handle accounted for, pinned exactly while active, nothing waited for freed, waiters counted |
| QueueSystem.RunLeaves | src/sw/kernel/psipe_queue.c:114-120 | over every interleaving no wait returns before its operation has completed |
| QueueSystem.RunSafety | src/sw/kernel/psipe_queue.c:55-209 | with safe flushes, at most one transfer in flight, the head's; flag up only on an idle card |
| QueueSystem.RunSteps | src/sw/kernel/psipe_irq.c:14-51 | with safe flushes, no completion of a run is lost, counted twice or given to the wrong operation |
| QueueSystem.FifoWithoutDrops | src/sw/kernel/psipe_queue.c:71-75 | completed and then active handles are 0, 1, 2, ... in order |
| QueueSystem.LastDoneDrains | src/sw/kernel/psipe_queue.c:126-146 | once the last handle has completed nothing is active |
| QueueSystem.WaitOnLastDrains | src/sw/userspace/master-mm.c:156-165 | waiting on the last handle and flushing empties both lists |
| QueueSystem.CardStepsCountDown | src/sw/kernel/psipe_queue.c:126-146 | every card or handler step brings the queue nearer to empty |
| QueueSystem.SomeCardStep | src/sw/kernel/psipe_queue.c:126-146 | while something is active such a step is possible |
| QueueSystem.EverythingCompletes | src/sw/kernel/psipe_queue.c:126-146 | from every state with the invariant some steps of card and handler complete all active operations, in order |
| QueueSystem.WaiterReturns | src/sw/kernel/psipe_queue.c:113-120 | and after them every waiting thread can return |
| Card.RingIdle | src/hw/psipe.c:157-173 | what is seen of a card that is rung is the started card through the whole run, then the card whose run has ended, then the card that has raised its flag |
| Card.RingBusy | src/hw/mmio.c:89-90 | ringing a card in a run is ignored |
| Card.Acknowledge | src/sw/kernel/psipe_irq.c:14-25 | the handler's check is an acknowledgement if and only if there is one to make |
| Matmul.MatmulGold | src/sw/userspace/master-mm.c:41-53 | the triple loop adds to each element its products in k order |
| Matmul.ChipletSlice | src/sw/userspace/chiplet-mm.c:121-144 | the flat loop does the same for its slice |
| Matmul.ProductIsFold | src/sw/userspace/master-mm.c:41-53 | the product the loops compute: each element of C plus the products of its row of A and its column of B, position by position, first to last |
| Matmul.RowAndColumn | src/sw/userspace/chiplet-mm.c:138-139 | row and column exist for every element |
| Matmul.ProductExample | src/sw/userspace/master-mm.c:49 | 1 * 3 + 2 * 4 is 11 |
| Matmul.SliceOfProduct | src/sw/userspace/chiplet-mm.c:121-144 | the product of a slice is the slice of the product |
| Matmul.OfsClosedForm | src/sw/userspace/psipe_wrappers.h:6 | where each device's slice starts |
| Matmul.OfsEnd | src/sw/userspace/psipe_wrappers.h:6 | the parts add up to the whole |
| Matmul.Owner | src/sw/userspace/psipe_wrappers.h:6 | every element belongs to some device |
| Matmul.OwnerUnique | src/sw/userspace/psipe_wrappers.h:6 | and to only one |
| Matmul.PartsPositive | src/sw/userspace/psipe_wrappers.h:6 | no part is empty if and only if there are at least as many elements as devices |
| Matmul.SliceOut | src/sw/userspace/master-mm.c:74-155 | the master sends each device its slice and remembers where &C[pi][pj] lies; it gives up if and only if some transfer is empty |
| Matmul.FarmStepInv | src/sw/userspace/master-mm.c:120-132 | sends and receives of different devices do not disturb each other |
| Matmul.FarmComputesProduct | src/sw/userspace/master-mm.c:74-165 | whatever the order of transfers, C is the product once every slice is back, which takes a slice for every device and non-empty operands |
| Matmul.FarmNext | src/sw/userspace/master-mm.c:74-165 | under that condition some transfer can run until all results are back, and brings the end nearer |
| Matmul.FarmFinishes | src/sw/userspace/master-mm.c:74-165 | and every run can be continued until they are |
| Matmul.MatmulOffload | src/sw/userspace/master-mm.c:55-182 | the offloaded multiply succeeds if and only if there are as many elements as devices and operands are not empty, and then leaves in C what the triple loop leaves |
| Offload.ShareFinishesIff | src/sw/userspace/master-mm.c:85-142 | master and chiplet finish a device's transfers if and only if none is empty; then each has got exactly what the other sent |
| Offload.EncodeAppend | src/sw/userspace/master-mm.c:96-120 | the bytes of an array are those of its elements, in order |
| Offload.EncodeLength | src/sw/userspace/master-mm.c:85 | an array takes as many times the element size as it has elements |
| Offload.EncodeRoundTrip | src/sw/userspace/chiplet-mm.c:121 | read back as elements the bytes are the array |
| Offload.ArgsRoundTrip | src/sw/userspace/psipe_wrappers.c:111-129 | sizes, length and position are read back from the arguments as written |
| Offload.ReceivedIsSent | src/sw/userspace/chiplet-mm.c:47-121 | from what a device is sent its chiplet reads the problem, the slice and its position |
| Offload.DeviceFinishesIff | src/sw/userspace/master-mm.c:85-142 | if and only if operands and slice are not empty all transfers of a device complete; then the chiplet has got arguments, A, B and slice in this order, and what it computes from these bytes and the master reads back is the slice's product |
| Offload.DeviceCanFinish | src/sw/userspace/master-mm.c:85-142 | there is such a run, with a chiplet that computes what it sends |
| Offload.OffloadFinishesIff | src/sw/userspace/master-mm.c:74-165 | all devices finish if and only if there are at least as many elements as devices and the inner dimension is not 0; then the master reads the product's slices from what comes back |

## Left out

- QEMU and PCI setup, socket creation, bind, accept, connect and the opening ACK exchange: foreign calls.
- Partial socket reads, socket errors, and the SYN and RST requests, which no endpoint sends.
- Transfers whose two lengths differ, and lengths of 2^32 or more: the code defines no outcome for them.
- Two ends with different page sizes.
- `psipe_dma_add_handle`, `psipe_dma_fini` and machine reset: never called in a transfer.
- The interrupt modes MSI and INTx: one flag stands for both.
- Pinning, mapping and memory-allocation failures; the VMA check that is compiled out.
- Failed starts and the return value of a wait.
- Character device, probe and remove, `psipe_util.c`, the other user programs, timing and file output.
- Device.PSIPEDevice.MmioWrite: with a page count beyond the handle array the handle write is out of bounds in the code; the model asks for a page count within it, as the driver writes.
- Device.PSIPEDevice.WriteHandle: the same.
- Device.PSIPEDevice.HandleReq: SYN and RST, as above.
- Device.PSIPEDevice.TxPage: lengths that `RxFrame` never returns, above the bounce buffer or below -1.
- Device.PSIPEDevice.RxFrame: headers above 4 KB or negative overrun the bounce buffer in the code.
- Device.PSIPEDevice.Execute: a receiving run needs its request and frames to come; `Protocol.dfy` shows that they do.
- Device.PSIPEDevice.ReceivePages: requires the peer's frames for the configured length on the stream; frames above 4 KB or of negative length have no defined effect.
- Device.PSIPEDevice.SendPage: the body of the loop in `psipe_transfer_pages`, as a method of its own; likewise ReceivePage, LoadBlocks and StoreBlocks.
- Driver.PsipeDma.PinPages: buffers that wrap around the 64-bit address space, and the empty buffer at address 0.
- QueueSystem.StepInv: the pin of a submission and the locked append are one step; the start after the unlock is a step of its own.
- QueueSystem.EverythingCompletes: waiters and submitters are not forced to move, only shown not to be needed.
- Matmul.MatmulOffload: the chiplet's run is a call; transfer of sizes and operands is by value; C is left open when the master gives up, which stands for the refusal, or the blocked wait, that `Offload.dfy` shows on the wire.
- Offload.OffloadFinishesIff: the chiplet's send is in its list from the beginning, with the bytes that it computes from what has been delivered once that is complete; the master's copy of a result into C is `Matmul.CopyInto`.
- Transfers.HistoryCopies: a frame is stored when its last byte is read; page by page that is what `ReceivePage` does.
- Jobs.SendIsJob: a peer that offers more than the sender's length is a transfer with two lengths.
