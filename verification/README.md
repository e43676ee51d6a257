# RaptorQ streaming demo: the transport pipeline

The demo cuts a video into segment files. The sender splits each file into symbols of
1024 bytes, adds repair symbols and sends one packet per symbol over UDP, throttled in
bursts. The receiver collects the symbols of up to four files at a time, rebuilds a file
once a later one has begun and its turn has come, and writes the files out in order, a bit
at a time, while packets keep arriving. This project models that pipeline and proves what it
keeps, over every run and every input.

The strongest results compose all of it: `EndToEnd.SingleSegmentRoundTrip` (file bytes to
packets, a channel that loses, repeats and reorders, the store, partial writes, the same
bytes), `Sessions.SessionArrives` (safety of a whole session through the event loop, file
by file, said of the run alone), `Sessions.SessionDelivers` (its drain delivers all that
can be delivered, and ends) and `Sessions.SessionCanDeliver` (it can always be reached).

## How it is laid out

| module | models |
|---|---|
| `Wrappers`, `Bytes` | optional values; zero padding, cutting and joining of symbols |
| `ParamDeriv` | block partition arithmetic and the accepted file sizes |
| `ProbeTable` | the open-addressed table: probe chains, free slots, the multiplier 29 |
| `SymbolStore` | what the store of a code block means: a bounded, insertion-ordered map from id to symbol; the codec contract |
| `CodeBlockStates` | the class with hash table, id array, flat symbol buffer and counters, refining that map |
| `Segments` | what a segment means: headers to symbol ids, the drain of decoded blocks through partial writes |
| `SegStates` | the class with mode, output buffer and code block array, refining that |
| `SegStateSets` | the circular four-slot window, refining a partial map from file number to segment |
| `Receiver` | the event loop as a transition system; each event carries what the outside decided |
| `FileHistory`, `ReceiverInvariant`, `ReceiverRuns` | the history of a file, what every step keeps, what every run guarantees |
| `ReceiverSteps` | what each event does, and what the events of a run say about its state |
| `PacketOrder` | which orders of packets the receiver survives |
| `ReceiverLoops` | the loop and its tasks as methods on the window and the output variables, refining the transition system |
| `Sender` | reading, cutting and packetising a file, as nested loops over one buffer |
| `EndToEnd` | one file through sender, channel, store and drain |
| `Sessions` | many files through sender, channel and event loop |
| `TimeUtil`, `Throttle` | time arithmetic, the deadline of the first write, the burst throttle and its rate |
| `LineReader` | command lines out of a chunked stream through a fixed buffer |

Where the program changes things in place, the model does too: classes and loops, each
proved equal to a specification function of the old state; the lemmas are about those
functions. An assertion of the program that depends on what the network delivers is a
modelled outcome (`Aborted`), never a precondition on packets.

The codec library is known by a contract only. An `Encoder` is systematic: the symbol with
id i < K is source symbol i. A `Decoder` is any function of the stored entries; it may
fail in each of the ways the code distinguishes. It is `Sound` if, for distinct ids with
symbols of one source block, success yields that block. Nothing else is assumed. Packets
are enough for a file if they contain all its source symbols before more than 30 distinct
repair symbols, or if at least K distinct symbols came and the codec succeeds on those
kept; this is exactly when the store reports success.

Parameters stand for the outside: which event `pselect` reports, the datagram, the results
of `open` and `write`, the clock, the codec's answers, the chunks that `read` delivers.

## What came out

- The loop never says it is done, except for an empty list: the newest file received is
  only marked ready by a packet of a later one, so it stays in the window
  (`ReceiverRuns.LoopEndsOnlyEmpty`, exact).
- A file of which nothing arrives stops all output for good, since later files are never
  opened before it (`ReceiverRuns.LostFileStalls`). The branch at receiver/receiver.c:50-59
  was meant for that case; it cannot be reached, because line 33 has already returned
  (`assert false` in `ReceiverLoops.ReceiverLoop.TaskStartWrite`).
- Packets of two files that overtake each other abort the receiver on an assertion if
  the older file is still in the window: packets of files 0, 1 and 0 do
  (`PacketOrder.OvertakingRunAborts`). A run of packets of honest size aborts if and only
  if some packet comes after its file was overtaken and before it has left the window
  (`PacketOrder.RunAbortsExactlyWhenLate`); in-order packets never do
  (`ReceiverRuns.InOrderNeverAborts`). For any packet whatever, honest or not, the exact
  condition is `ReceiverRuns.AbortsExactlyWhen`.
- `recv_file_nbr` is described as the file of the last packet received
  (receiver/receiver.c:126-127). The code keeps the highest file number that has begun;
  the model follows the code.
- The store keeps the first K+30 distinct ids; the source symbols are all kept exactly when
  they arrive before more than 30 distinct repair symbols (`SymbolStore.AllSourceKept`).
- `get_next_line` says that it discards a line that is too long. It discards the whole
  buffer whenever a read fills it, complete lines included
  (`LineReader.FullBufferLosesLines`). It keeps the whole input exactly when, each time
  bytes arrive, they and the unfinished line before them are fewer than 255
  (`LineReader.WholeInputKept`).
- The sender keeps the file size in an int: a file of 4 GiB or more whose size modulo 2^32
  is acceptable is sent in part, as a smaller file
  (`Sender.ReadWholeExactlyWithinLimit`, exact; `Sender.HugeFileIsCut`, an example).

## Model

| member | source | states |
|---|---|---|
| `Sessions.SessionArrives` | receiver/receiver.c:132-350 | For honest packets in any order, any losses, repeats, timeouts, opens and partial writes but no failed write: in-order packets never abort; each file of which enough was taken in comes out as a prefix of the sent file, and all of it once it is behind, whatever becomes of the others; and if enough came of every file opened so far, the whole output is the sent files one after the other, the last cut off somewhere |
| `Sessions.SessionDelivers` | receiver/receiver.c:132-350 | For in-order honest packets and opens and writes that succeed, if the deadline has passed and enough came of all files below the newest begun (for a codec that succeeds on any K distinct symbols, K of them): no more positive writes follow than bytes are pending, one is possible while a file is open, and when none is open the output is exactly all the files below the newest, in full and in order |
| `Sessions.SessionCanDeliver` | receiver/receiver.c:132-350 | From every such run, whether or not the deadline has passed, there are a deadline and writes after which the output is exactly those files |
| `Sessions.FilesArrive` | receiver/receiver.c:132-350 | In any order of honest packets, whether or not other writes fail: a file whose packets that came while it was in the window are enough is written byte for byte, a prefix while it is the head or if its write failed; a file left behind without a failed write takes up exactly its length, enough or not |
| `EndToEnd.SingleSegmentRoundTrip` | receiver/segstate.c:119-165 | From any received sequence out of what the sender sends that is enough: store, reassembly and drain emit a prefix of the file, are done exactly when it is the whole file, and are done after enough writes of at least a byte |
| `EndToEnd.StoredGivesFile` | receiver/codeblockstate.c:94-185 | The store of received packets reports success if and only if they were enough, and then its data cut to the file length is the sent file: the padding of both sides agrees |
| `EndToEnd.EnoughInStore` | receiver/codeblockstate.c:45-78 | Packets are enough if and only if the store keeps all source symbols or the codec succeeds on at least K kept ones |
| `EndToEnd.PacketIsSymbol` | sender/sender.c:130-204 | Packet i of a file has the header fields of the format and is what the receiver takes for symbol i, sources 0..K-1 and repairs from K on, each once; padded by zeros it is encoded symbol i |
| `EndToEnd.SourcePayloadsAreFile` | sender/sender.c:130-155 | The payloads of the first n source packets, joined, are the first n symbols' worth of the file: nothing lost, repeated or padded |
| `EndToEnd.SenderSends` | sender/sender.c:52-62 | For every accepted size the sender derives the receiver's parameters, reads the whole file and sends exactly the packets the round trip starts from |
| `EndToEnd.ReceivedHonest` | receiver/segstate.c:58-83 | Whatever subset, order and repetition of the sent packets arrives, the store sees only true symbols of the file |
| `EndToEnd.ReceiveStores` | receiver/segstate.c:58-83 | A segment that takes in packets holds exactly the store of their symbols and nothing else changes |
| `Sessions.StepHonest` | receiver/receiver.c:262-349 | Every loop iteration keeps that files' histories hold only packets sent for them |
| `Sessions.RecoveredContent` | receiver/codeblockstate.c:99-184 | A file is recovered if and only if its packets were enough, and then its content is the sent file |
| `ReceiverLoops.ReceiverLoop.ReceiveWrite` | receiver/receiver.c:131-350 | The loop computes exactly the run of the transition system on the events it handles, stops when all files are written or an assertion fails, and keeps the invariant |
| `ReceiverLoops.ReceiverLoop.Iterate` | receiver/receiver.c:261-349 | One iteration is one step of the transition system, and aborts exactly when that does; what each step does is said by the members of ReceiverSteps |
| `ReceiverLoops.ReceiverLoop.TaskStartWrite` | receiver/receiver.c:26-61 | Opens the head exactly when it is initialised and ready and `open` succeeds; otherwise changes nothing |
| `ReceiverLoops.ReceiverLoop.TaskWrite` | receiver/receiver.c:63-85 | Hands the head's next bytes to `write`, and when it is finished or failed drops it from the window and tries to open the next |
| `ReceiverLoops.ReceiverLoop.FinishFile` | receiver/receiver.c:71-80 | The head leaves the window and the next file is opened if it is ready |
| `ReceiverLoops.ReceiverLoop.RecvTask` | receiver/receiver.c:263-327 | Late and too early packets are ignored, a first packet begins its file and wakes the older ones, others are added; aborts exactly where an assertion fails |
| `ReceiverLoops.ReceiverLoop.BeginSegment` | receiver/receiver.c:281-292 | The slot of an unknown file becomes its fresh segment unless the size is refused |
| `ReceiverLoops.ReceiverLoop.AdvanceTo` | receiver/receiver.c:293-301 | A file beyond all earlier ones makes those ready and, if writing is allowed and no file is open, opens the head |
| `ReceiverLoops.ReceiverLoop.DeliverPacket` | receiver/segstate.c:58-83 | Adds the packet to its own segment only, or reports the failed assertion; that no accepted packet is dropped is LogIsAccepted |
| `ReceiverLoops.ReceiverLoop.constructor` | receiver/receiver.c:111-129 | Starts with an empty window at file 0, nothing open, nothing received |
| `ReceiverInvariant.StepInv` | receiver/receiver.c:132-350 | Every iteration that does not abort keeps the invariant (window, past files, order, head, opens), in any order of packets, and leaves no ready head waiting if opens succeed |
| `ReceiverInvariant.ExecInv` | receiver/receiver.c:132-350 | The same for every run: no lost wake-up |
| `ReceiverInvariant.InitInv` | receiver/receiver.c:111-129 | The invariant holds at the start |
| `ReceiverInvariant.TaskWriteInv` | receiver/receiver.c:63-85 | Writing keeps the invariant, including that a file left behind was written in full or failed |
| `ReceiverInvariant.OpenFileCanBeWritten` | receiver/segstate.c:119-141 | While a file is open the assertions before writing hold and something is left to write; every result that `write` can have is handled |
| `ReceiverInvariant.StartWriteInv` | receiver/receiver.c:26-61 | Opening keeps the invariant; a successful one leaves no ready head waiting |
| `ReceiverInvariant.TimeoutInv` | receiver/receiver.c:225-229 | So does the deadline of the first write, which allows writing from then on |
| `ReceiverInvariant.DeliverInv` | receiver/receiver.c:304-309 | So does adding a packet |
| `ReceiverSteps.PossibleEvents` | receiver/receiver.c:150-259 | The deadline can pass exactly from the first reception until it has; readiness can be signalled exactly before that; a write can happen exactly while a file is open |
| `ReceiverSteps.DeadlineStartsWriting` | receiver/receiver.c:225-229 | The deadline allows writing, and a ready head is then written on the descriptor that open returns; nothing else changes |
| `ReceiverSteps.NewestWakesHead` | receiver/receiver.c:293-301 | The first packet of a newest file opens the waiting head, if writing is allowed, nothing is open and open succeeds |
| `ReceiverSteps.SignalIsFinal` | receiver/receiver.c:337-345 | Readiness is signalled before anything is received, and cannot be signalled again |
| `ReceiverSteps.WriteExtendsOutput` | receiver/receiver.c:63-85 | A write of n bytes puts out the next n bytes of the content of the head; the head is left exactly at its end or on a failed write, which adds nothing, and then the next file is opened if it is ready; no other output changes |
| `ReceiverSteps.FlagsFollowEvents` | receiver/receiver.c:123-129 | In every run writing is allowed if and only if the deadline has passed, and the ready descriptor is closed if and only if it was signalled |
| `ReceiverSteps.OnceEach` | receiver/receiver.c:225-229 | No run has two deadlines or two readiness signals |
| `ReceiverSteps.OpenedWithItsDecoder` | receiver/segstate.c:104-117 | The codec answer a file was opened with is that of an event of the run |
| `ReceiverInvariant.BeginAdvanceInv` | receiver/receiver.c:281-301 | So does beginning a file, in or out of order |
| `ReceiverRuns.WholeRunOutput` | receiver/receiver.c:132-350 | In every run without a failed write the output is the contents of files 0..min-1 in full and in order, then a prefix of the head's content if it is open, and nothing of any other file |
| `ReceiverRuns.OutputsArePrefixes` | receiver/segstate.c:119-165 | In every run, failed writes included, what was written of a file is a prefix of its content, and all of it if the file is behind and no write failed |
| `ReceiverRuns.OpenedInOrder` | receiver/receiver.c:26-85 | In every run a descriptor is open exactly while the head is being written, no other segment is, writing was allowed, and files were opened 0, 1, 2, ... once each |
| `ReceiverRuns.InOrderNeverAborts` | receiver/receiver.c:276-324 | With packets in order and of honest size no interleaving of losses, timeouts, opens and writes makes an assertion fail |
| `ReceiverRuns.InOrderPacketFate` | receiver/receiver.c:276-324 | In such a run a packet is never late; it is added to its own file or is at least 4 files ahead of the head and changes nothing |
| `ReceiverRuns.OrderlyRecv` | receiver/receiver.c:276-324 | The step behind both: only the newest file is still receiving |
| `ReceiverRuns.LogIsAccepted` | receiver/receiver.c:276-324 | In every run, whatever the packets and their order, a file's history is exactly its packets that came while it was in the window, in order of arrival: none is dropped, none is made up |
| `ReceiverRuns.RecvLogs` | receiver/receiver.c:276-324 | A packet of a file in the window is appended to its history, any other changes nothing at all |
| `ReceiverRuns.AbortsExactlyWhen` | receiver/segstate.c:63-67 | Any packet aborts the receiver if and only if its number is in the window and it is too long, or its file has another size or is no longer receiving, or it would begin a file of refused size |
| `ReceiverRuns.AbortsExactlyWhenLate` | receiver/segstate.c:67 | For honest sizes: if and only if its file is in the window and no longer receiving |
| `ReceiverRuns.OvertakenFileAborts` | receiver/receiver.c:293-309 | Once a later file has begun, the next packet of an earlier file still in the window aborts |
| `PacketOrder.RunAbortsExactlyWhenLate` | receiver/receiver.c:276-309 | For packets of honest size in any order, a run aborts if and only if some packet of it comes late: its file had begun, then a file beyond all others began, and its file has not left the window |
| `PacketOrder.ExecTracks` | receiver/receiver.c:281-301 | In every run a file at or after the head is in the window exactly if a packet of it was taken in, and it is still receiving exactly if no file beyond all others has begun since |
| `PacketOrder.OvertakingRunAborts` | receiver/receiver.c:293-309 | From the start, packets of files 0, 1 and 0 again abort |
| `ReceiverRuns.LoopEndsOnlyEmpty` | receiver/receiver.c:134-139 | With packets of the listed files only, the loop's end is reached if and only if there is no file |
| `ReceiverRuns.LostFileStalls` | receiver/receiver.c:33-37 | While nothing arrives for the head file, the head stays and nothing is written of any file |
| `ReceiverRuns.DrainAccounts` | receiver/receiver.c:63-85 | Without further packets, positive writes reduce the bytes left in ready segments by exactly what they take, and keep which file is blocked |
| `ReceiverRuns.DrainEndsAtBlocked` | receiver/receiver.c:63-85 | So there are at most that many writes, one is possible while a file is open, and when none is open the head is the first file without packets or still receiving |
| `ReceiverRuns.NewestIsBlocked` | receiver/receiver.c:293-297 | With packets in order and every file up to the newest begun, that is the newest |
| `FileHistory.WriteSegInv` | receiver/segstate.c:119-165 | A write extends the output along the file's content; it ends exactly at the end of the file or on failure |
| `FileHistory.OpenSegInv` | receiver/segstate.c:104-117 | Opening fixes the content to be written, whatever the codec answers |
| `FileHistory.ContentSize` | receiver/segstate.c:128-141 | What is to be written of a file is as long as the file, whatever arrived |
| `FileHistory.NewSegInv` | receiver/segstate.c:14-42 | A fresh segment agrees with an empty history |
| `FileHistory.AddSegInv` | receiver/segstate.c:58-83 | A packet added to segment and history leaves the segment's store the one of the history |
| `SegStateSets.SegStateSet.constructor` | receiver/segstateset.c:4-12 | The window stands for the empty map |
| `SegStateSets.SegStateSet.IncMinFileNbr` | receiver/segstateset.c:19-26 | Removes exactly the head from the map; every other file keeps its segment, its slot being unchanged |
| `SegStateSets.SegStateSet.GetInternalIndex` | receiver/segstateset.c:28-39 | Below and above are reported exactly outside the window; the slot is always inside the array |
| `SegStateSets.SegStateSet.Get` | receiver/segstateset.c:41-49 | A file is found if and only if the map has it, and then with its own segment; there is no slot exactly outside the window |
| `SegStateSets.SegStateSet.MarkInitialized` | receiver/segstateset.c:51-63 | The slot's segment enters the map under its file number and nothing else changes; outside the window nothing does |
| `SegStateSets.SegStateSet.MarkReadyToWrite` | receiver/segstateset.c:65-79 | Exactly the receiving segments below the argument become ready |
| `SegStateSets.SlotsAndFiles` | receiver/segstateset.c:36-37 | Slots and files of the window correspond one to one |
| `SegStateSets.SlotStays` | receiver/segstateset.c:19-26 | A file's slot does not change while the window advances |
| `SegStateSets.SegStateSet.SetUp` | receiver/receiver.c:288-292 | Setting up a file adds exactly its fresh segment to the map, or nothing if the size is refused |
| `SegStateSets.SegStateSet.AddPacket` | receiver/receiver.c:304-309 | Changes exactly the segment of the packet's file |
| `SegStateSets.SegStateSet.PrepareHead` | receiver/receiver.c:46-49 | Prepares exactly the head segment |
| `SegStateSets.SegStateSet.WriteHead` | receiver/receiver.c:66-71 | Writes from exactly the head segment |
| `SegStateSets.SegStateSet.DropHead` | receiver/receiver.c:74-77 | Releasing the head and advancing removes exactly it |
| `SegStates.SegState.Init` | receiver/segstate.c:14-42 | For an accepted size a fresh receiving segment with all its code blocks empty; otherwise untouched |
| `SegStates.SegState.AddPacket` | receiver/segstate.c:58-83 | Under the source's assertions the packet's symbol is added to the one code block, nothing else changes |
| `SegStates.SegState.ReadyForWrite` | receiver/segstate.c:94-97 | Only the mode changes |
| `SegStates.SegState.PrepareOutput` | receiver/segstate.c:104-117 | The buffer holds the first block as reassembled, at position 0 |
| `SegStates.SegState.WriteMore` | receiver/segstate.c:119-165 | For any number of blocks: takes the next n bytes of the block, moves to the next block at its end, says whether more is to be written |
| `SegStates.SegState.MoveOn` | receiver/segstate.c:151-161 | At the end of a block the position restarts in the next block, which is loaded, unless it was the last |
| `SegStates.SegState.FirstBlock` | receiver/segstate.c:112-116 | A new buffer that the first block fills |
| `SegStates.SegState.CurrentSize` | receiver/segstate.c:128-141 | The block's size without the padding of the last symbol, always above the position, so both assertions hold |
| `SegStates.SegState.LoadCbBuf` | receiver/segstate.c:85-92 | The block is reassembled over the start of the buffer |
| `SegStates.SegState.Free` | receiver/segstate.c:44-56 | Lets go of all memory but the struct |
| `SegStates.NewBlocks` | receiver/segstate.c:25-31 | One empty code block state per block, large ones first, each of its block's size |
| `Segments.DrainEmitsContent` | receiver/segstate.c:119-165 | For any number of blocks and any write counts, what was emitted is a prefix of the concatenated blocks cut to the file length; done exactly when it is all of it; positive writes always progress |
| `Segments.WriteAdvances` | receiver/segstate.c:119-165 | One write takes the next n bytes of the content, and more is to be written exactly before its end |
| `Segments.FailedWriteIsFinal` | receiver/segstate.c:142-148 | A failed write changes nothing and there is nothing more to write |
| `Segments.ContentOfBlock` | receiver/segstate.c:128-144 | Each block's bytes sit in the content where the sizes of the blocks before it put them |
| `Segments.BlockEnd` | receiver/segstate.c:128-141 | Block sizes are positive, each block ends where the next starts, and the last ends at the file length |
| `Segments.PosBelowEnd` | receiver/segstate.c:140-144 | While a block is being written something of it is left, within the file |
| `Segments.HashInRange` | receiver/segstate.c:71-76 | For every accepted size and every 32-bit payload id the id times 29 stays below 2^31 |
| `Segments.SourceHeaders` | receiver/segstate.c:71-76 | A header names a source symbol if and only if it is of ensemble 0 and its offset is inside the source block; every other ensemble counts as repair |
| `CodeBlockStates.CodeBlockState.constructor` | receiver/codeblockstate.c:13-36 | All structures agree on the empty store; every slot is free |
| `CodeBlockStates.CodeBlockState.AddSym` | receiver/codeblockstate.c:38-78 | Table, id array, symbol buffer and counters all become those of the store with the symbol added; unchanged if full or known; the probe loop passes over exactly the occupied slots before its stop, and over none while this id and all before are below the table size |
| `CodeBlockStates.CodeBlockState.Search` | receiver/codeblockstate.c:50-62 | The probe loop ends, at the id exactly if it is stored and at a free slot otherwise |
| `CodeBlockStates.CodeBlockState.LowStopsAtOnce` | receiver/codeblockstate.c:50-62 | While all stored ids are below the table size, the search in the table of this object for another such id ends at its first probe |
| `CodeBlockStates.CodeBlockState.PlaceSymbol` | receiver/codeblockstate.c:87-89 | A stored source symbol goes to its place in the output, all else stays |
| `CodeBlockStates.CodeBlockState.AppendSymbol` | receiver/codeblockstate.c:65-77 | The zero-padded symbol goes behind the others, which stay; the source counter counts it if below K |
| `CodeBlockStates.CodeBlockState.CopySourceSyms` | receiver/codeblockstate.c:80-91 | The output block becomes the direct copy, bytes after it stay |
| `CodeBlockStates.CodeBlockState.CopySymbol` | receiver/codeblockstate.c:83-90 | One round: a source symbol goes to its place, a repair symbol nowhere, all else stays |
| `CodeBlockStates.CodeBlockState.Entries` | receiver/codeblockstate.c:143-165 | The codec is handed exactly the stored ids with their symbols |
| `CodeBlockStates.WritePadded` | receiver/codeblockstate.c:68-72 | The symbol's bytes are the payload and zeros, the rest of the buffer stays |
| `CodeBlockStates.CodeBlockState.GetData` | receiver/codeblockstate.c:94-185 | Output and result are those of the store for every codec answer, bytes after the block stay; true if and only if all source symbols are stored or the codec succeeds on at least K symbols |
| `SymbolStore.SourceCount` | receiver/codeblockstate.c:103-113 | The number of stored source ids never exceeds K, and is K if and only if all are stored |
| `SymbolStore.SourceCountStep` | receiver/codeblockstate.c:74-77 | Adding raises it by one exactly for a new source id: the counter is right |
| `SymbolStore.SuccessIsComplete` | receiver/codeblockstate.c:99-184 | True is returned if and only if all source ids are stored or the codec succeeds on at least K symbols, and then the output is the complete source block |
| `SymbolStore.DegradedOutput` | receiver/codeblockstate.c:103-112 | With too few symbols, or too few for the codec, block i of the output is the stored source symbol i, and zeros if there is none; true is returned exactly if all are stored |
| `SymbolStore.FailureOutput` | receiver/codeblockstate.c:126-181 | If the codec fails otherwise, the output is zeros or what it wrote before it failed, and false is returned |
| `SymbolStore.CollectKeepsFirst` | receiver/codeblockstate.c:45-78 | Any run of arrivals leaves exactly the first K+30 distinct ids, in order |
| `SymbolStore.CollectKeepsFirstPayload` | receiver/codeblockstate.c:51-58 | Of arrivals with one id the payload of the first is kept, padded with zeros |
| `SymbolStore.EnoughKept` | receiver/codeblockstate.c:45-78 | At least K symbols are kept if and only if K distinct ones arrived |
| `SymbolStore.AllSourceKept` | receiver/codeblockstate.c:45-78 | All source symbols are kept if and only if they all arrive before more than 30 distinct repair ids |
| `SymbolStore.OrderInsensitive` | receiver/codeblockstate.c:45-91 | Two honest arrival sequences with the same ids, at most K+30, give the same direct copy and the same source ids |
| `SymbolStore.CollectConsistent` | receiver/codeblockstate.c:65-72 | Padding restores each symbol: honest arrivals leave only encoded symbols of the source block |
| `ProbeTable.FillHolds` | receiver/codeblockstate.c:49-63 | After any run of inserts that leaves a slot free, a probe finds an id if and only if it was inserted, and the table holds exactly the distinct ids |
| `ProbeTable.InsertKeeps` | receiver/codeblockstate.c:49-63 | Inserting keeps: distinct ids, as many occupied slots as ids, every slot from an id's home to its place occupied |
| `ProbeTable.StopsInside` | receiver/codeblockstate.c:51-62 | There is always a free slot, so the probe loop ends |
| `ProbeTable.FindsExactlyStored` | receiver/codeblockstate.c:51-58 | A probe finds exactly the stored ids |
| `ProbeTable.HomesCollide` | receiver/codeblockstate.c:27-29 | The table size not being a multiple of 29, two ids share a home if and only if they are congruent modulo the size |
| `ProbeTable.HomesStride` | receiver/codeblockstate.c:50 | Successive ids have homes 29 slots apart, cyclically |
| `ProbeTable.SlotsFollow` | receiver/codeblockstate.c:59-61 | Probes go through the slots one after the other, from the last to the first |
| `ProbeTable.PerfectOnWindow` | receiver/codeblockstate.c:50-62 | After any inserts of ids below the table size every search for such an id ends at its first probe; LowStopsAtOnce and AddSym apply this to the table of a code block state over its whole run |
| `ProbeTable.TableSize` | receiver/codeblockstate.c:27-29 | Larger than the number of ids, two and a half times as large up to rounding, and no multiple of 29 |
| `ParamDeriv.AcceptedSizes` | utils/param_deriv.c:12-19 | In 32-bit arithmetic a transport object size passes the one-block assertion if and only if it is between 1 and 51,200,000 |
| `ParamDeriv.AcceptedParams` | utils/param_deriv.c:12-36 | What such a size gives: one block of all its symbols, at most 50,000, the padding less than a symbol |
| `ParamDeriv.PartitionSums` | utils/param_deriv.c:21-26 | For any symbol and block count both assertions hold and the block sizes sum to the total |
| `ParamDeriv.PartitionValid` | utils/param_deriv.c:16-26 | For any file length and no more blocks than symbols: non-empty blocks, padding in [0, T) |
| `ParamDeriv.PartitionIsRfc6330` | utils/param_deriv.c:21-26 | The block sizes are those of Partition[I, J] in section 4.4.1.2 of RFC 6330, exact division included |
| `ParamDeriv.SymsBeforeClosed` | utils/param_deriv.c:21-26 | Where each block starts, in closed form |
| `Sender.XmitFile` | sender/sender.c:38-221 | Outcome for every size and codec failure, and the exact packets sent: all of the file's, or the source packets before the failure, or none |
| `Sender.XmitBlocks` | sender/sender.c:115-207 | For any number of blocks the packets of each block in turn, each read where the last ended; stops with the source packets of the block at which the codec fails |
| `Sender.XmitBlock` | sender/sender.c:118-206 | Source packets, then repair packets computed from the block before the buffer is overwritten |
| `Sender.ReadBlock` | sender/sender.c:120-127 | The buffer holds the block's bytes of the file, then zeros |
| `Sender.SendSource` | sender/sender.c:129-155 | One packet per source symbol, numbered by byte offset, the last one without padding |
| `Sender.SendRepair` | sender/sender.c:175-205 | The repair packets are those of the source block that was in the buffer before the codec overwrote it |
| `Sender.EncodeOver` | sender/sender.c:175-183 | The buffer then starts with encoded symbols K to K+nExtra-1 of that block |
| `Sender.SendSymbols` | sender/sender.c:185-205 | One full packet per repair symbol, numbered from offset 0 |
| `Sender.BlockSizes` | sender/sender.c:117-127 | Only the last block falls short, by less than a symbol: both assertions hold, for any number of blocks |
| `Sender.SourceBytesAreFile` | sender/sender.c:117-155 | For any number of blocks the payloads of the source packets, joined, are the file up to the end of the block, and the whole file with the last one |
| `Sender.ReadWholeExactlyWithinLimit` | sender/sender.c:52-62 | A file that passes is read to its end if and only if it has at most 51,200,000 bytes |
| `Sender.HugeFileIsCut` | sender/sender.c:22-62 | A file of 2^32 + 1 bytes passes as one of 1 byte, and only its first 1024 bytes are read |
| `Throttle.Udp.SendMsg` | sender/udp.c:62-97 | Sends unless the draw drops the message, counts it in either case, and asks for the sleep of the burst accounting, which never lasts beyond the time the burst needs; without a speed neither counts nor sleeps |
| `Throttle.SleepIsExact` | sender/udp.c:71-96 | The sleep after a burst ends when its bits have had the time they need at the set speed, early by less than a nanosecond and never late; there is none if that has passed, within a burst, or without a speed |
| `Throttle.RateBound` | sender/udp.c:71-96 | For a monotone clock and sleeps at least as long as requested: from the first message to the end of the n-th burst at least the time its bits need at the set speed passes, less n nanoseconds |
| `Throttle.RateReached` | sender/udp.c:71-96 | The rate is reached: if bursts follow each other at once, go out in time and sleeps last as requested, the bursts are over no later than all their bits need at the set speed |
| `Throttle.RunPaced` | sender/udp.c:71-96 | The invariant behind it, over every run |
| `Throttle.BurstSizes` | sender/udp.c:80-94 | Completed bursts have at least 32768 bytes and less than the largest message more, and no byte goes uncounted |
| `TimeUtil.TimeVar.AddDelta` | utils/timeutil.c:21-32 | Normalised in place; the assertion after the carry holds |
| `TimeUtil.AddDeltaTo` | utils/timeutil.c:21-32 | The time moved by delta, early by less than a nanosecond, and normalised |
| `TimeUtil.TimeVar.SetFromSeconds` | utils/timeutil.c:34-38 | Set in place to the truncated duration |
| `TimeUtil.GetTimespecFromSeconds` | utils/timeutil.c:34-38 | The duration cut toward zero by less than a nanosecond |
| `TimeUtil.GetDeltaSeconds` | utils/timeutil.c:13-19 | The exact difference of two times |
| `TimeUtil.ComputeTimeout` | receiver/receiver.c:158-180 | The receiver's timeout computation, in place |
| `TimeUtil.DeadlineIsStartPlusDelays` | receiver/receiver.c:158-180 | Waiting that long ends at the start time plus the delay, and the extra delay for the first segment, early by less than 3 ns, or at once if past |
| `LineReader.Reader.GetNextLine` | sender/cli.c:24-76 | On NUL-free input the next line of buffer and stream, cut to dest_sz - 1, what stays buffered, and what is left to read |
| `LineReader.Reader.Search` | sender/cli.c:30-32 | Searching only the new data finds the first newline of the buffer |
| `LineReader.Reader.ReadMore` | sender/cli.c:47-60 | New bytes go behind the buffered ones; a buffer that gets full is emptied |
| `LineReader.Reader.TakeLine` | sender/cli.c:63-75 | Delivers the line cut to dest_sz - 1 and keeps exactly the bytes after its newline |
| `LineReader.Reader.ShiftBy` | sender/cli.c:71-73 | The bytes after the line move to the front with their NUL |
| `LineReader.Reader.constructor` | sender/cli.c:26-28 | An empty buffer, NUL-terminated |
| `LineReader.CallWithoutLine` | sender/cli.c:32-50 | Without a complete line a call keeps all that came and gives up when nothing can be read, or exits at the end of the input |
| `LineReader.CallWithLine` | sender/cli.c:32-75 | A call delivers the first line as soon as the chunk with its newline was read, keeps the rest and reads no further |
| `LineReader.ResumeSearch` | sender/cli.c:48-57 | The resumed search misses no newline |
| `LineReader.LinesOfStream` | sender/cli.c:24-76 | As long as, each time bytes arrive, they and the unfinished line before them are fewer than 255, all lines and what stays buffered are those of the byte stream itself |
| `LineReader.NoDropsExactlyWhenFits` | sender/cli.c:52-60 | No buffer is thrown away if and only if the input fits |
| `LineReader.ChunkIndependent` | sender/cli.c:24-76 | So two ways of splitting a stream that both fit give the same lines and the same rest |
| `LineReader.SplitIsFaithful` | sender/cli.c:63-75 | Lines with their newlines followed by the rest are the stream |
| `LineReader.BytesAccounted` | sender/cli.c:52-60 | Every full buffer costs exactly 255 bytes and nothing else is lost |
| `LineReader.WholeInputKept` | sender/cli.c:52-60 | The whole input is kept if and only if it fits in that sense |
| `LineReader.FullBufferLosesLines` | sender/cli.c:52-60 | A concrete read of 255 bytes whose complete first line is lost |

## Left out

- The RaptorQ library and `utils/rq_memblocks.c`: not modelled beyond the codec contract; memory is always available.
- Sockets, `pselect`, `open`, `write`, `fcntl`, clocks and `random`: only their outcomes, as events and parameters. Errors of `pselect`, `recv` and `clock_gettime` end the program and are not events; nor is a datagram shorter than the header, which fails an assertion.
- `receiver/segment_list.c`, `utils/m3u8.c`, option parsing, command dispatch and the sender's pacing loop over the playlist: plumbing that would only add easy members.
- `gui/`, `segmenter/`, `test/`, build files: scripts and user interface.
- LineReader.Reader.GetNextLine: says what it delivers for NUL-free input only; with NUL bytes it says only that the buffer stays well-formed.
- LineReader.LinesOfStream: the input does not end (end of input exits the program). For input that does not fit BytesAccounted says how much is lost.
- Sender.XmitFile: the number of repair symbols is at most 2^31 / 1024, beyond which the source's int offsets overflow; a file that cannot be opened or shrinks while being read is not modelled; which codec call fails in a block is not distinguished, nor is a payload larger than the packet buffer, which cannot occur with 1024-byte symbols.
- SegStates.SegState.AddPacket: takes the source's assertions as preconditions; ReceiverLoops.ReceiverLoop.DeliverPacket decides them and reports the abort.
- ReceiverInvariant.ExecInv: no lost wake-up assumes that opens succeed; after a failed open the source itself does not retry until the next file begins.
- ReceiverRuns.WholeRunOutput: assumes that no write fails, since a failed write ends the file; OutputsArePrefixes holds without that.
- Sessions.SessionArrives, like every session result: at most 65536 files, since the file number has 16 bits and the receiver does not unwrap it.
- Sessions.SessionDelivers: packets are in order, because a file that begins late keeps receiving until a newer one begins; that a codec succeeds on any K distinct symbols is a condition on the codec that may be left out, the files then have to be complete.
- Throttle.RateBound: exact reals, one speed for the whole run; floating-point rounding and a speed changed within a burst are not modelled.
- TimeUtil.AddDeltaTo: exact reals, and whole seconds are not limited to an int.
- What an opened output file contained before, and that it is not truncated: output is the bytes written.
- The contents of freshly allocated buffers: Dafny fills them, the source does not; no result depends on them.
- `SegStates` groups the output fields of the segment struct in one value, and code block states are a sequence, not an array; buffers are arrays updated in place.
