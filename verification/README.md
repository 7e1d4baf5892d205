# ARDEP firmware: a verified model of its stateful components

ARDEP is Zephyr firmware for an automotive board. This project models the components of it that carry real state, in
Dafny 4.11, and proves what they promise over whole runs. `dafny verify dfyconfig.toml` checks everything.

Code that changes state step by step is modelled by classes and loops proved against specification functions or
relations; the laws of those specifications are lemmas. Flash, buses, queues, semaphores and the heap are values:
arrays, sequences and maps.

**UDS registry, dispatcher and service 0x2C** (section 11.6 of ISO 14229-1:2020).
`UdsDispatch` is the walk over static and dynamic registrations and the choice of registration ids. `RegistryHeap` and
`Registry` are the linked list of registrations over a heap of blocks: a ghost view names the registrations, and
`Represents` says that the heap consists of exactly their blocks, all apart. `DynamicIds` and `DynamicIdRequests` define
and clear identifiers at run time and keep three linked structures in step; they are proved to refine an ordered map from
identifiers to entries, and to lose and leak nothing; `DynamicIdRuns` states it for whole runs, in which registrations of
others come and go. `DynamicIdReads` reads a defined identifier, and `DynamicIdReentry` does so through the dispatcher of
the same instance, which the read enters again.

**UDS transfers** (sections 15.2 to 15.6 of ISO 14229-1:2020). `NorFlash` is a flash whose programming only clears bits
and whose writes can fail part way. `UploadDownload` is the flash transfer and its coupling to `FileTransfer`;
`TransferRuns` states what whole runs achieve; `HostFlasher` runs the host's flashing script against the engine.

**Legacy update.** `LegacyUpdate` is a stop-and-wait protocol with 8-bit counters over a link that loses requests and
answers.

**LIN.** `LinScheduler` interleaves the schedule thread with one controlling client. `LinCallbacks` is the bounded
callback table. `Lin2Can` carries CAN ids in two bits of the payload.

**Power IO shield.** `BitWords`, `ShieldPins`, `ShieldConfig`, `IoExpander` and `PowerIoShield` are the GPIO driver over
the register file of its IO expander.

Where the code does not do what one would expect of it, the model follows the code and a lemma gives the exact
condition:

- The range check of the start requests admits ranges whose end wraps around 2^32 (`AcceptedRangeInsideFlash`,
  `WrappedRangeIsAdmitted`); every claim about a running transfer is about ranges that do not. An address equal to the
  flash base is not made an offset (`NormaliseIsOffset`).
- A failed append to an identifier that exists empties it (`AppendToExisting`). A new identifier whose id item cannot be
  allocated is taken back by the callee, and the caller then follows its pointer to the freed list (`AddNewId`,
  `FaultOnFirstDefinition`); after that the model claims nothing.
- Clearing one identifier removes the first registration with it, whoever made it (`ClearedExactly`, `ClearedForeign`).
- The copy function counts with 16 bits, so a longer memory range is read short although the read succeeds
  (`WholeRangesIff`, `LongRangeReadShort`).
- A short file write leaves its bytes in the file although it is refused (`FileIsAcceptedPayloads`, `ShortWriteStays`).
- An empty schedule table can make the LIN thread read past it (`StraysIffEmptyTable`, `StrayRun`).
- A CAN payload survives the LIN link exactly when it has a first byte whose two top bits are clear
  (`RoundTripExactly`).
- A block counter out of sequence still advances the legacy server's counter, and the block due is then acknowledged
  without a write (`SkippedCounterLosesBlock`). A block whose write failed is acknowledged when it is sent again, so a
  client that lost the refusal goes on (`CompleteIffAllTaken`, `LostBlockRun`).
- Anybody can unregister a defined identifier by its id, and its item then stays in the id list of the service
  (`UnregisterAny`); after that the model claims nothing.
- A transfer of the emulated device past its last register, and a negative filter id of the LIN link, index outside
  their arrays (`TransferI2c`, `RemoveRxFilter`); after that the model claims nothing.
- Configuring an interrupt reports success although the bus or the work queue refused the write
  (`PinInterruptConfigure`, `LostWriteReportsSuccess`).

## Model

| member | source | states |
|---|---|---|
| UdsDispatch.CheckAndActOnEvent | lib/uds/uds.c:21-61 | One registration's part in an event is that of its specification, which `FirstOfTheKind` says without naming it |
| UdsDispatch.HandleEvent | lib/uds/uds.c:64-116 | The two loops equal the recursive walk over the static and then the dynamic registrations |
| UdsDispatch.FirstOfTheKind | lib/uds/uds.c:21-116 | By the own check and action of the first registration of the kind: a failing check or action answers with its code; one that does not apply passes the event on; a success ends the dispatch if it consumes the event, or leaves that open in the static list, and otherwise goes on to a positive answer |
| UdsDispatch.NobodyOfTheKind | lib/uds/uds.c:68-115 | Without a registration of the kind the handler's default code is the answer and nothing changes |
| UdsDispatch.SlotsAt | lib/uds/uds.c:68-106 | The static registrations come first, and only theirs are consumed by default |
| UdsDispatch.EventCallback | lib/uds/uds.c:119-134 | The first handler of an event dispatches it; an event without handler is not supported and touches nothing |
| UdsDispatch.FirstStopDecides | lib/uds/uds.c:68-115 | Exactly the prefix up to the first error or consumption runs and gives the result; without one, positive if some action succeeded, else the default code |
| UdsDispatch.InertChangesNothing | lib/uds/uds.c:34-51 | A registration that does not apply can be added or removed anywhere without changing the outcome of any event |
| UdsDispatch.FirstFree | lib/uds/uds.c:141-176 | The least id from a candidate on that is not in use; zero only when all of them are |
| UdsDispatch.FewCandidates | lib/uds/uds.c:141-176 | Pigeonhole: with n registrations the id is at most n + 1, and none is left only with at least 2^32 - 1 registrations |
| UdsDispatch.FindNextDynamicId | lib/uds/uds.c:141-176 | The search loop finds the least positive id not in use after at most n + 1 candidates |
| Registry.Instance.LinkRegistration | lib/uds/uds.c:180-213 | Registering links a copy at the end of the list under the least free id, or fails without effect when ids or memory run out |
| Registry.Instance.RegisterForeign | lib/uds/uds.c:180-213 | A registration by any other party grows the list by one and keeps every other structure |
| Registry.Instance.UnregisterEventHandler | lib/uds/uds.c:215-244 | Unregistering removes exactly the registration with the id, unless its own function refuses or there is none |
| Registry.Instance.UnlinkRegistration | lib/uds/uds.c:222-239 | What is left after removing the i-th registration: the others in order, and of a defined identifier only its id item |
| Registry.Instance.FreeIdentifier | lib/uds/dynamically_define_data_ids.c:141-156 | The unregister function frees each entry and then the list, each of them once |
| Registry.ReachableIdsDistinct | lib/uds/uds.c:178-244 | In every reachable registry the ids are pairwise distinct, positive and at most the number of registrations ever made |
| Registry.RegisterThenUnregister | lib/uds/uds.c:178-244 | Registering and then unregistering the id that was given restores the list |
| Registry.WithoutIsDropped | lib/uds/uds.c:220-240 | Removing the first registration with an id removes one element and keeps the order |
| Registry.UnregisterDropsId | lib/uds/uds.c:215-244 | The instance's list of ids changes under unregistering as the id list of the runs does |
| Registry.RegisterTakesId | lib/uds/uds.c:180-213 | The instance's list of ids changes under registering as the id list of the runs does |
| RegistryHeap.LiveBlocks | lib/uds/dynamically_define_data_ids.c:141-445 | Conservation: live blocks are one registration, one list and one id item for each identifier, one block for each entry, one for each other registration, and those on their way in or out |
| RegistryHeap.HeapDetermined | lib/uds/dynamically_define_data_ids.c:141-445 | Between requests the registrations determine the heap: nothing is leaked |
| RegistryHeap.OwnedAt | lib/uds/dynamically_define_data_ids.c:318-323 | Changing or removing one registration changes the same position in the id list |
| RegistryHeap.ForeignUntouched | lib/uds/dynamically_define_data_ids.c:228-445 | Changing, removing or adding a defined identifier leaves the registrations of others alone |
| DynamicIds.DefineLaws | lib/uds/dynamically_define_data_ids.c:331-445 | Defining appends to one identifier, or makes it, and changes no other; identifiers stay distinct |
| DynamicIds.EmptiedLaws | lib/uds/dynamically_define_data_ids.c:169-182 | A failed append empties one identifier and changes no other |
| DynamicIds.ClearLaws | lib/uds/dynamically_define_data_ids.c:447-522 | Clearing removes one identifier and nothing else |
| DynamicIds.EveryRunMeans | lib/uds/dynamically_define_data_ids.c:632-649 | In every run each identifier means what its own requests made of it, whatever happened to the others |
| DynamicIds.HeldChanges | lib/uds/dynamically_define_data_ids.c:158-226 | Appending to, emptying and removing one registration does to the definitions what the map's operations do |
| DynamicIds.HeldGrows | lib/uds/dynamically_define_data_ids.c:293-329 | A new registration with one entry defines its identifier |
| DynamicIds.IsListed | lib/uds/dynamically_define_data_ids.c:237-247 | The walk over the id list finds an id exactly if it is that of a defined identifier |
| DynamicIds.FindExisting | lib/uds/dynamically_define_data_ids.c:228-253 | The search returns the registration of an identifier defined before, and none only if there is none |
| DynamicIds.DropEntries | lib/uds/dynamically_define_data_ids.c:169-182 | The error path of an append unlinks and frees every entry of the list, each of them once |
| DynamicIds.AppendEntry | lib/uds/dynamically_define_data_ids.c:158-226 | Appending an entry links one new block at the end; without memory the list loses all it had |
| DynamicIdRequests.AppendToExisting | lib/uds/dynamically_define_data_ids.c:335-363 | Defining more of an identifier appends to it; when memory runs out it is emptied, and only it |
| DynamicIdRequests.CreateNewDataIdentifier | lib/uds/dynamically_define_data_ids.c:255-291 | List and temporary registration of a new identifier are both made, or neither is left behind |
| DynamicIdRequests.TakeBack | lib/uds/dynamically_define_data_ids.c:308-315 | The callee's cleanup finds the registration just linked and frees its entries, its list and itself; the registrations are as before and the caller's list is gone |
| DynamicIdRequests.RegisterNewItem | lib/uds/dynamically_define_data_ids.c:293-329 | The new registration is linked, its id noted and the temporary copy freed; each way to fail has its answer, and what it leaves: everything as it was, or the caller's list freed |
| DynamicIdRequests.Abandon | lib/uds/dynamically_define_data_ids.c:366-382 | The caller's cleanup returns the heap to what it was before the request |
| DynamicIdRequests.DefineFresh | lib/uds/dynamically_define_data_ids.c:341-387 | A new identifier is defined with its first entry; whichever allocation but the id item's fails, heap and registrations are as before; after that one the caller follows a pointer to the freed list |
| DynamicIdRequests.AddNewId | lib/uds/dynamically_define_data_ids.c:331-445 | Both define requests refine the map's define, with every answer and what is left by a failure; the caller follows a freed pointer if and only if of a new identifier only the id item cannot be allocated |
| DynamicIdRequests.FaultOnFirstDefinition | lib/uds/dynamically_define_data_ids.c:308-382 | An input for which it does: the first definition of an instance without memory for its id item |
| DynamicIdRequests.RemoveIdItems | lib/uds/dynamically_define_data_ids.c:480-498 | The items with the id are unlinked from the id list and freed, all others stay in order |
| DynamicIdRequests.FindDataId | lib/uds/dynamically_define_data_ids.c:454-475 | The search stops at the first registration of the identifier, whoever made it |
| DynamicIdRequests.UnregisterFirst | lib/uds/dynamically_define_data_ids.c:451-476 | The first registration of the identifier goes, unless it refuses; at most its id item is left behind |
| DynamicIdRequests.RemoveSingleId | lib/uds/dynamically_define_data_ids.c:447-522 | After clearing one identifier all structures are in step again |
| DynamicIdRequests.ClearedExactly | lib/uds/dynamically_define_data_ids.c:454-474 | Clearing removes exactly the identifier's definition and no registration of others if and only if the first registration of the identifier was defined by this service, or there is none, or it refuses and nothing is defined |
| DynamicIdRequests.ClearedForeign | lib/uds/dynamically_define_data_ids.c:454-474 | An input for which clearing takes the registration of somebody else and leaves the definition |
| DynamicIdRequests.UnregisterKnown | lib/uds/uds.c:215-244 | Asking a registration to go: it goes unless it refuses, and of a defined identifier the id item is left |
| DynamicIdRequests.UnregisterNext | lib/uds/dynamically_define_data_ids.c:530-547 | One turn of the clear-all loop: the next identifier goes, its item stays in the id list |
| DynamicIdRequests.FreeItems | lib/uds/dynamically_define_data_ids.c:578-593 | The items are unlinked and freed, each of them once |
| DynamicIdRequests.RemoveAllIds | lib/uds/dynamically_define_data_ids.c:524-615 | Every defined identifier goes, no other registration does, and the heap holds exactly the blocks of the others |
| DynamicIdRuns.Handle | lib/uds/dynamically_define_data_ids.c:617-649 | What each request does to the registrations, whoever made them, how it is answered, and exactly when it follows a freed pointer |
| DynamicIdRuns.StepIsMapsStep | lib/uds/dynamically_define_data_ids.c:617-649 | A request does to the definitions what its operation on the map does, and leaves the registrations of others alone, if and only if it meets a guard that can be looked up before |
| DynamicIdRuns.OthersComeAndGo | lib/uds/uds.c:178-244 | Registering adds one registration at the end of those of others, unregistering removes the one with the id unless it refuses; neither changes a definition |
| DynamicIdRuns.UnregisterAny | lib/uds/uds.c:215-244 | Anybody can unregister an id; the id list of the service is left with an id too many if and only if it was that of a defined identifier |
| DynamicIdRuns.DoStep | lib/uds/uds.c:178-244 | Each step does to the instance what the run says, is answered so, and keeps all structures in step exactly if it does not end the run |
| DynamicIdRuns.AnswersAre | lib/uds/dynamically_define_data_ids.c:255-445 | How each step is answered, by the registrations and by which allocations succeed |
| DynamicIdRuns.RunRefines | lib/uds/dynamically_define_data_ids.c:228-649 | Every run whose clear requests meet their guard refines the map, whatever others register and unregister in between |
| DynamicIdRuns.EveryRun | lib/uds/uds.c:178-244 | Every run of define, clear and clear-all among registrations of others that come and go, with any allocation failing: it ends early exactly where a request follows a freed pointer or somebody takes away the registration of a defined identifier; live blocks are conserved; clear-all leaves exactly the blocks of others |
| DynamicIdRuns.EveryRunApart | lib/uds/dynamically_define_data_ids.c:228-649 | When nobody else registers a cleared identifier, each identifier means what its own requests made of it; and when nobody else does anything, the registrations of others are as they were and clear-all returns the heap to its starting set |
| DynamicIdReads.ReadAction | lib/uds/dynamically_define_data_ids.c:82-139 | The walk over the entry list equals reading the entries one after the other, stopping at the first that fails |
| DynamicIdReads.ReadOne | lib/uds/dynamically_define_data_ids.c:96-134 | One entry: a slice of what the dispatcher returns for the source, or a memory range, with the error cases of either |
| DynamicIdReads.SliceRead | lib/uds/dynamically_define_data_ids.c:96-121 | A slice is taken exactly if the source answers, has that many bytes in its 256, and they fit the response; the code otherwise; the device is as the source left it |
| DynamicIdReads.FirstFailureDecides | lib/uds/dynamically_define_data_ids.c:91-134 | The first part that cannot be read gives the answer, and nothing behind it is read |
| DynamicIdReads.WalkWrites | lib/uds/dynamically_define_data_ids.c:67-80 | What a dispatch writes it writes through the copy function of the request |
| DynamicIdReads.MemoryThroughCopy | lib/uds/memory_by_address.c:135-150 | The default memory handler writes through the copy function only |
| DynamicIdReads.SliceInside | lib/uds/dynamically_define_data_ids.c:64-121 | Every slice taken lies inside the bytes the source returned, and these inside the 256-byte scratch buffer |
| DynamicIdReads.CopyAll | lib/uds/dynamically_define_data_ids.c:67-80 | However often the copy function is called, what it took stays and its buffer is not overrun |
| DynamicIdReads.ReadsMemory | lib/uds/memory_by_address.c:28-150 | A memory read succeeds exactly for a readable range that fits the response, and appends its bytes |
| DynamicIdReads.MemoryRead | lib/uds/memory_by_address.c:28-150 | Byte by byte: a read succeeds exactly for a non-empty range at a non-null address all of whose bytes lie in one region, below the last address, and within the response by the 16 bits of its count; these bytes are the answer; otherwise out of range with nothing written |
| DynamicIdReads.MemoryStops | lib/uds/memory_by_address.c:135-150 | The default registration ends the dispatch, whatever stands behind it |
| DynamicIdReads.OutsideFails | lib/uds/memory_by_address.c:28-66 | A range that reaches past every region makes the read fail |
| DynamicIdReads.ReadReturnsParts | lib/uds/dynamically_define_data_ids.c:82-139 | A read succeeds if and only if each part can be read and all fit; then it returns exactly their concatenation in definition order |
| DynamicIdReads.WholeRangesIff | lib/uds/memory_by_address.c:140-141 | A successful read returns the whole memory ranges if and only if no range is longer than a 16-bit count can say |
| DynamicIdReads.LongRangeReadShort | lib/uds/memory_by_address.c:140-141 | An input for which it does not: 2^16 readable bytes are read with success, and none of them returned |
| DynamicIdReentry.ReadDefined | lib/uds/dynamically_define_data_ids.c:55-62 | The dispatcher reads a defined identifier's entries, wherever its registration stands |
| DynamicIdReentry.OwnStops | lib/uds/dynamically_define_data_ids.c:82-139 | The read of a defined identifier ends the dispatch, whatever stands behind it |
| DynamicIdReentry.AlikeWalks | lib/uds/uds.c:64-116 | Two lists that differ only in registrations that take no part dispatch alike |
| DynamicIdReentry.ReentryIndependent | lib/uds/dynamically_define_data_ids.c:91-134 | With sources that are not defined identifiers, it makes no difference to a read what the defined identifiers of the dispatcher it enters would be read through |
| DynamicIdReentry.EnteredThroughCopy | lib/uds/dynamically_define_data_ids.c:64-139 | Defined identifiers write through the copy function if the registrations of others do, so every source's slice is inside the scratch buffer |
| DynamicIdReentry.ReadAfterRun | lib/uds/dynamically_define_data_ids.c:82-139 | Reading an identifier through the dispatcher of the same instance, which the read enters again, returns the concatenation of what a run made of it |
| DynamicIdReentry.RunThenRead | lib/uds/dynamically_define_data_ids.c:82-139 | Any run of the instance and then a read: the dispatcher returns the concatenation of what the run made of the identifier, exactly if each part can be read and all fit; a range past every region fails it |
| NorFlash.FlashWrite | lib/uds/upload_download.c:188-210 | The controller's write in place: whole write blocks only; it programs all of them, or fails and leaves a partial program |
| NorFlash.ResendAfterTorn | lib/uds/upload_download.c:186-216 | Programming data again after a partial failure ends as programming it once |
| NorFlash.TornComposes | lib/uds/upload_download.c:186-216 | Repeated partial failures are one partial failure |
| Blocks.PaddedIsLeastMultiple | lib/uds/upload_download.c:182-184 | Padding is the least whole number of write blocks that holds the bytes |
| Blocks.SplitCovers | scripts/runner/ardep-uds.py:87-96 | The blocks are the data in order, all but the last full, and as many full blocks cover it with less than one to spare |
| UploadDownload.NormaliseIsOffset | lib/uds/upload_download.c:77-80 | The address used is the offset into the flash exactly if it is not the flash base |
| UploadDownload.AcceptedExactly | lib/uds/upload_download.c:60-164 | Exactly which start requests are accepted and how the others are answered, by address, size, format, board and flash size |
| UploadDownload.AcceptedRangeInsideFlash | lib/uds/upload_download.c:82-91 | An accepted range lies inside the flash exactly if address plus size does not wrap |
| UploadDownload.WrappedRangeIsAdmitted | lib/uds/upload_download.c:82-91 | An input whose range wraps and is accepted |
| UploadDownload.WriteBlocks | lib/uds/upload_download.c:178-216 | Whole blocks and one block padded with 0xFF together program exactly the chunk; exactly when the write succeeds; a failure leaves a partial program of the chunk and nothing else |
| UploadDownload.WriteTail | lib/uds/upload_download.c:198-216 | The padded block programs the rest of the chunk and no byte past it |
| UploadDownload.TwoWritesProgramChunk | lib/uds/upload_download.c:178-216 | Padding with 0xFF programs nothing, so two writes equal one program of the chunk |
| UploadDownload.Engine.StartDownload | lib/uds/upload_download.c:60-118 | Exactly when a download is accepted; it starts at the address itself if that is not above the flash base, and at its distance from the base otherwise; flash is untouched |
| UploadDownload.Engine.StartUpload | lib/uds/upload_download.c:120-164 | How an upload is answered, where it starts, in the terms of StartDownload, and the block length granted; flash is untouched |
| UploadDownload.Engine.ContinueDownload | lib/uds/upload_download.c:166-223 | A chunk is refused for its range, lands at the cursor whole, or tears and leaves the cursor |
| UploadDownload.Engine.ContinueUpload | lib/uds/upload_download.c:227-261 | The next bytes of the range, as many as the limits allow; the sequence error at its end |
| UploadDownload.Engine.Reset | lib/uds/upload_download.c:263-274 | Reset forgets the transfer, or reports that there is none |
| UploadDownload.Engine.Exit | lib/uds/upload_download.c:276-292 | Both transfers end; the assertion that not both were running never fails |
| UploadDownload.Engine.Handle | lib/uds/upload_download.c:294-355 | Every event takes one step of the coupled state machines and keeps their invariant when its range does not wrap |
| UploadDownload.OutOfTurn | lib/uds/upload_download.c:294-355 | With nothing running there is nothing to continue or end; a file transfer ended short of its declared size lets no other start; other events are not for this handler |
| TransferRuns.EveryStateValid | lib/uds/upload_download.c:276-355 | In every run at most one transfer is active and start <= cursor <= start + total <= flash size while a flash transfer is |
| TransferRuns.StartLeavesNothing | lib/uds/upload_download.c:299-309 | A start request leaves nothing of the earlier transfer, whatever the answer |
| TransferRuns.DownloadRun | lib/uds/upload_download.c:166-223 | At each moment of a download, whatever chunks were refused or failed, flash from start to the cursor is the concatenation of the accepted chunks of any lengths, and nothing outside the image or the requested range has changed |
| TransferRuns.DownloadedReadsBack | lib/uds/upload_download.c:166-223 | The same for a reader of the flash: the bytes read back, and every byte outside the image unchanged |
| TransferRuns.ResendSameResult | lib/uds/upload_download.c:186-222 | A chunk that failed part way, resent and accepted, leaves what sending it once would have left |
| TransferRuns.UploadRun | lib/uds/upload_download.c:227-261 | The responses so far are flash from start to the cursor, and sent plus remaining is constant |
| TransferRuns.UploadFinishes | lib/uds/upload_download.c:232-235 | At most `total` requests finish an upload; every later one gets the sequence error and changes nothing |
| FileTransfer.BlockLength | lib/uds/upload_download_file_transfer.c:48-56 | The block length is within the transport's limit, and the requested one when that is |
| FileTransfer.ErrorCodes | lib/uds/upload_download_file_transfer.c:58-68 | Which error numbers are out of range, denied and not accepted |
| FileTransfer.RequestAnswers | lib/uds/upload_download_file_transfer.c:82-182 | Exactly which file requests are accepted, and how the others are answered |
| FileTransfer.FileEngine.Reset | lib/uds/upload_download_file_transfer.c:70-80 | The transfer is forgotten and the file stays |
| FileTransfer.FileEngine.BeginWrite | lib/uds/upload_download_file_transfer.c:82-104 | A write starts on an empty file with nothing transferred, exactly if it can be opened |
| FileTransfer.FileEngine.BeginRead | lib/uds/upload_download_file_transfer.c:106-138 | A read starts on an existing file with its size, and with nothing transferred |
| FileTransfer.FileEngine.Request | lib/uds/upload_download_file_transfer.c:150-182 | What each mode of operation does to the files; a refused request changes none and leaves the transfer idle |
| FileTransfer.FileEngine.WriteChunk | lib/uds/upload_download_file_transfer.c:184-212 | A chunk is appended and counted, or refused |
| FileTransfer.FileEngine.ReadChunk | lib/uds/upload_download_file_transfer.c:214-255 | The next bytes of the file are sent and counted, or the reason why not |
| FileTransfer.WriteAnswers | lib/uds/upload_download_file_transfer.c:184-212 | A chunk is accepted exactly if it has bytes, does not pass a declared size and lands whole; file, count and code in each case |
| FileTransfer.ReadAnswers | lib/uds/upload_download_file_transfer.c:214-255 | Exactly when bytes are sent, which, and what is counted; position and code in each other case |
| FileTransfer.FileEngine.Exit | lib/uds/upload_download_file_transfer.c:272-289 | Exit reports success exactly for a read, an undeclared size or a declared size that was met |
| FileTransfer.WriteResult | lib/uds/upload_download_file_transfer.c:184-212 | Every write keeps the bookkeeping consistent, never passes a declared size, and touches no other file |
| FileTransfer.WritesConserve | lib/uds/upload_download_file_transfer.c:184-212 | Over every run of writes: the count is what was accepted, and the file's length is that plus what refused writes left |
| FileTransfer.StrayIffShort | lib/uds/upload_download_file_transfer.c:184-212 | Refused writes leave bytes in the file if and only if some write landed only in part |
| FileTransfer.FileIsAcceptedPayloads | lib/uds/upload_download_file_transfer.c:184-212 | The file is the concatenation of the accepted payloads if and only if no write, at the state it met, was handed to the file system and landed only in part |
| FileTransfer.AllOrNothingIsNeverShort | lib/uds/upload_download_file_transfer.c:199-207 | Writes that land whole or not at all never land in part |
| FileTransfer.ShortWriteStays | lib/uds/upload_download_file_transfer.c:199-207 | A write of two bytes of which one lands: refused, and the byte stays |
| FileTransfer.BytesSentArePrefix | lib/uds/upload_download_file_transfer.c:214-255 | The bytes sent are the prefix of the file of that length |
| FileTransfer.WrittenFileReadsBack | lib/uds/upload_download_file_transfer.c:184-255 | A file written and then read returns the accepted payloads |
| HostFlasher.OnlyLastBlockPadded | scripts/runner/ardep-uds.py:87-96 | With a block size that is a multiple of the write block no block but the last is padded, and padding stays inside the requested range |
| HostFlasher.TransferBlock | scripts/runner/ardep-uds.py:156-159 | No block is refused for its range: it lands, or the device failed |
| HostFlasher.SendBlocks | scripts/runner/ardep-uds.py:150-161 | The loop sends the image in order; what has landed is always a prefix of it |
| HostFlasher.UploadFirmware | scripts/runner/ardep-uds.py:147-163 | A finished upload has put the image at its place and changed nothing else; exactly when the request is refused and, on a device without faults, exactly when the transfer finishes |
| HostFlasher.UploadReturnsImage | lib/uds/upload_download.c:227-261 | Uploading a range that holds an image returns the image, however the responses are cut |
| HostFlasher.FlashAndReadBack | scripts/runner/ardep-uds.py:147-163 | After a finished flash an upload of the same range is accepted, is in the middle of sending the image whenever one looks, and returns it from its beginning, all of it after as many requests as bytes |
| LegacyUpdate.LastCounterWraps | scripts/ardep_commands/uds_dfu.py:137 | The client's counter is the server's next one, across every wrap |
| LegacyUpdate.LegacyServer.HandleEraseRoutine | lib/uds_legacy/uds.c:200-231 | A fresh context, and a counter whose successor is zero; without effect when the context cannot be made |
| LegacyUpdate.LegacyServer.HandleTransferData | lib/uds_legacy/uds.c:241-286 | A request without counter is refused, a repeated counter acknowledged again without a write, the next one written, any other refused while the counter advances; a failed write is refused and then acknowledged |
| LegacyUpdate.DataAnswers | lib/uds_legacy/uds.c:241-286 | Counter, image and replies after each kind of data request, in numbers |
| LegacyUpdate.LegacyServer.HandleTransferExit | lib/uds_legacy/uds.c:301-325 | Exit closes an open context and keeps the image; a failed flush is refused and then confirmed |
| LegacyUpdate.EveryRunInStep | lib/uds_legacy/uds.c:241-286 | Whatever is lost and whichever writes fail: each of the first k or k + 1 blocks came to a write exactly once, k of them acknowledged; the server holds exactly those the flash took, in order; the client is refused exactly if it hears of a failed write |
| LegacyUpdate.DeliveriesAreProgress | scripts/ardep_commands/uds_dfu.py:123-137 | Each exchange delivered whole acknowledges one block of a client that is not refused, whatever the flash took; as many as blocks complete the file if it took them all |
| LegacyUpdate.SkippedCounterLosesBlock | lib/uds_legacy/uds.c:252-266 | Whatever request comes before it the block due is acknowledged; it is written, and nothing else is, if and only if that request repeated the last counter or was the block itself |
| LegacyUpdate.FailedWriteLosesBlock | lib/uds_legacy/uds.c:276-285 | At any moment of a run: with the answer delivered the client is refused if and only if the write fails; with the answer lost the block sent again is acknowledged, and it is in the image if and only if that write succeeded |
| LegacyUpdate.CompleteIffAllTaken | lib/uds_legacy/uds.c:252-285 | Over every run: a client that has seen all blocks acknowledged has left the whole file behind if and only if no write of the run failed; of blocks that are not empty the same is true of the bytes, at every moment |
| LegacyUpdate.LostBlockRun | lib/uds_legacy/uds.c:276-285 | An input for which it has not: two blocks acknowledged, and only the second one in the image |
| LegacyUpdate.TransferBlock | scripts/ardep_commands/uds_dfu.py:124-134 | In ten attempts a block comes to a write once or not at all, at the first request that arrives; the client is refused exactly if that write fails and its answer arrives, and it goes through exactly if it is not and one attempt is delivered |
| LegacyUpdate.WriteImage | scripts/ardep_commands/uds_dfu.py:119-158 | The client stops at the first block that does not pass, and the server holds exactly what the flash took up to there; it finishes exactly if all blocks pass and the exit is answered after a flush that succeeds, and has then left the file behind if and only if the flash took every block |
| LinScheduler.EveryInterleaving | drivers/lin/abstract_lin/lin_scheduler.c:10-69 | The invariant holds in every interleaving of the thread with one client |
| LinScheduler.OnlyHolderTouches | drivers/lin/abstract_lin/lin_scheduler.c:21-68 | Table and entry index change only at the hands of the holder of `active`, and there is one at a time |
| LinScheduler.DisabledThreadWaits | drivers/lin/abstract_lin/lin_scheduler.c:60-69 | While the scheduler is disabled the thread does not read the indices and sends nothing |
| LinScheduler.DisableStops | drivers/lin/abstract_lin/lin_scheduler.c:60-69 | Disabling an active scheduler leads to the disabled state in two client steps, and the at most five the thread needs to give the semaphore |
| LinScheduler.DisabledUntilSet | drivers/lin/abstract_lin/lin_scheduler.c:60-69 | From there nothing is sent, in any interleaving, until a table is activated |
| LinScheduler.CallsRefused | drivers/lin/abstract_lin/lin_scheduler.c:38-64 | A table that is not there is refused, a disabled scheduler is not disabled again |
| LinScheduler.FramesFollowTable | drivers/lin/abstract_lin/lin_scheduler.c:22-31 | The k-th frame since the last activation is entry k modulo the count of the active table, and the entry index stays below the count |
| LinScheduler.StraysIffEmptyTable | drivers/lin/abstract_lin/lin_scheduler.c:22-29 | Some interleaving makes the thread read past a table if and only if one of the tables is empty |
| LinScheduler.StrayRun | drivers/lin/abstract_lin/lin_scheduler.c:22-58 | For every empty table an interleaving that does |
| LinScheduler.NoStrayWithoutEmptyTable | drivers/lin/abstract_lin/lin_scheduler.c:22-29 | Without an empty table no interleaving does |
| LinScheduler.ActivationStartsOver | drivers/lin/abstract_lin/lin_scheduler.c:52-55 | Each activation starts with the first entry and hands the semaphore on, to the thread if it waits |
| LinScheduler.SetActiveStarts | drivers/lin/abstract_lin/lin_scheduler.c:38-58 | A call that activates a table, of a disabled scheduler or an active one, ends with that table at its first entry and the semaphore given |
| LinScheduler.TurnSends | drivers/lin/abstract_lin/lin_scheduler.c:21-36 | A turn of the thread sends the next entry of the table, gives the semaphore back and sleeps |
| LinScheduler.BlockedClientServed | drivers/lin/abstract_lin/lin_scheduler.c:48-66 | A client waiting on `active` gets it after at most five steps of the thread, whatever else happens |
| LinCallbacks.NoMoreThanFrameIds | drivers/lin/abstract_lin/abstract_lin.c:127-142 | Pigeonhole: the table never holds more than 64 entries |
| LinCallbacks.RemovalRefines | drivers/lin/abstract_lin/abstract_lin.c:247-272 | Removal deletes exactly the entry of the id and keeps the others in order |
| LinCallbacks.ShiftLeft | drivers/lin/abstract_lin/abstract_lin.c:266-269 | The in-place shift leaves the used slots without the removed one |
| LinCallbacks.AbstractLin.GetFreeCallbackSlots | drivers/lin/abstract_lin/abstract_lin.c:107-117 | Used plus free is the capacity |
| LinCallbacks.AbstractLin.AllocateCallback | drivers/lin/abstract_lin/abstract_lin.c:127-142 | A slot is reserved, or refused because the table is full or the id is taken, in that order |
| LinCallbacks.AbstractLin.Register | drivers/lin/abstract_lin/abstract_lin.c:144-192 | Registering adds the entry to the map and to the end of the table, or says why not and changes nothing |
| LinCallbacks.AbstractLin.Unregister | drivers/lin/abstract_lin/abstract_lin.c:247-272 | Unregistering removes the id from the map and its slot from the table |
| LinCallbacks.AbstractLin.HeaderCallback | drivers/lin/abstract_lin/abstract_lin.c:41-77 | A header is answered as the map says |
| LinCallbacks.AbstractLin.RxCallback | drivers/lin/abstract_lin/abstract_lin.c:79-105 | A received frame goes to the incoming callback of its id, once, or to nobody |
| LinCallbacks.AbstractLin.ScheduleNow | drivers/lin/abstract_lin/abstract_lin.c:194-245 | Scheduling an id does what the map says, with its error cases |
| LinCallbacks.EveryRunRefinesMap | drivers/lin/abstract_lin/abstract_lin.c:127-272 | In every run the slots stand for the map, within the capacity and within 64 |
| LinCallbacks.EveryRegistrationRun | drivers/lin/abstract_lin/abstract_lin.c:127-272 | The driver after any run of registrations and removals has those slots and stands for that map |
| Lin2Can.RoundTripExactly | drivers/can/lin2can/lin2can.c:128-148 | Encoding and decoding undo each other if and only if there is a first byte with its two top bits clear |
| Lin2Can.EncodedBytes | drivers/can/lin2can/lin2can.c:273-282 | The bytes on the bus: the payload, 0xFF behind it, and the index in the two top bits |
| Lin2Can.HeardBytes | drivers/can/lin2can/lin2can.c:124-154 | The two top bits say who is told, and under which id; the rest is what is told |
| Lin2Can.CarriableExactly | drivers/can/lin2can/lin2can.c:128-148 | The frames the run theorems are about are exactly those that the encoding carries under every index |
| Lin2Can.Driver.MapFromCanId | drivers/can/lin2can/lin2can.c:75-83 | The first index of the id, or the mark for none |
| Lin2Can.Driver.Send | drivers/can/lin2can/lin2can.c:247-294 | A frame is encoded and queued at the end, or refused without effect |
| Lin2Can.Driver.OutgoingCallback | drivers/can/lin2can/lin2can.c:94-114 | The oldest frame leaves the queue and its sender is told |
| Lin2Can.Driver.IncomingCallback | drivers/can/lin2can/lin2can.c:124-154 | The receiver of the tag sees the cleaned frame under the tag's CAN id |
| Lin2Can.Driver.AddRxFilter | drivers/can/lin2can/lin2can.c:169-220 | Single and wildcard filters, with each way to be refused |
| Lin2Can.Driver.RemoveRxFilter | drivers/can/lin2can/lin2can.c:222-238 | Removing one filter, the wildcard, or an unknown one; an id indexes outside the table if and only if it is negative |
| Lin2Can.FilterAdded | drivers/can/lin2can/lin2can.c:169-220 | Which receivers each filter sets, and each way to be refused, in numbers |
| Lin2Can.FilterRemoved | drivers/can/lin2can/lin2can.c:222-238 | Which receivers a removal clears |
| Lin2Can.AddThenRemove | drivers/can/lin2can/lin2can.c:169-238 | Removing the filter just added restores what every arriving frame does; a refused filter changes nothing, and its result is a negative one |
| Lin2Can.LinkDelivers | drivers/can/lin2can/lin2can.c:94-294 | For every sequence of sends and polls what has been heard and what is queued are the accepted frames in order, each exactly once; what is heard is the payload of the frame and nothing but 0xFF behind it |
| Lin2Can.EveryLinkRun | drivers/can/lin2can/lin2can.c:94-294 | Two drivers on the link: the peer's receivers have been called with the payloads of the first accepted frames, 0xFF behind them, in order and exactly once, and with all of them when the queue is empty |
| ShieldPins.PinsOfBits | drivers/power_io_shield/power_io_shield.c:110-162 | A pin is in the image of a word exactly if its bit is in the word; numbers that are no pin never are |
| ShieldPins.PinOfOne | drivers/power_io_shield/power_io_shield.c:110-162 | The image of a pin's bit is that pin alone: the mappings are mutual inverses |
| ShieldPins.BitsApart | drivers/power_io_shield/power_io_shield.c:112-140 | Different pins have different bits |
| IoExpander.Expander.TransferI2c | drivers/power_io_shield/power_io_shield_emul.c:65-118 | The nested loops over messages and bytes equal the recursive meaning of a transfer, with its error cases; they leave the register file if and only if a message does |
| IoExpander.WriteThenRead | drivers/power_io_shield/power_io_shield.c:78-103 | A 16-bit write through the byte registers sets one word and nothing else, and a read returns it and changes nothing |
| IoExpander.WriteInParts | drivers/power_io_shield/power_io_shield_emul.c:83-114 | A write cut into two messages without a stop condition writes the same registers |
| IoExpander.ReadInParts | drivers/power_io_shield/power_io_shield_emul.c:83-114 | A read cut into two returns the same registers and changes none |
| IoExpander.ReadNeedsRegister | drivers/power_io_shield/power_io_shield_emul.c:86-90 | After a stop condition nothing is read before a register is named |
| ShieldConfig.ConfiguresOnePin | drivers/power_io_shield/power_io_shield.c:415-480 | Configuring a pin gives it exactly what was asked for in logical levels, hard inversion included, whatever the words held, and changes no other pin |
| ShieldConfig.EveryRunConfigures | drivers/power_io_shield/power_io_shield.c:415-480 | Over every run the five cached words are the map from pins to what was last asked of them |
| ShieldConfig.ReportsWhatWasAsked | drivers/power_io_shield/power_io_shield.c:173-223 | From the request to the report, in numbers of pins and bits, whatever was asked before: which registers the expander compares by, and exactly when the pin is reported |
| ShieldConfig.FiredPins | drivers/power_io_shield/power_io_shield.c:201-212 | The pins reported are exactly the flagged pins that are configured for a level or for the edge to the captured logical level |
| ShieldConfig.RunsAgain | drivers/power_io_shield/power_io_shield.c:214-219 | The handler runs again exactly if a pin that fired is configured for a level |
| ShieldConfig.DrivesOutputs | drivers/power_io_shield/power_io_shield.c:252-267 | Setting pins changes the outputs in the mask and nothing else; requests on inputs and fault lines are ignored |
| ShieldConfig.LogicalPins | drivers/power_io_shield/power_io_shield.c:238-240 | A port read gives the logical level of each pin |
| PowerIoShield.Driver.WriteU16Reg | drivers/power_io_shield/power_io_shield.c:79-89 | A write sets the word in the device and no other register, or fails without effect |
| PowerIoShield.Driver.ReadU16Reg | drivers/power_io_shield/power_io_shield.c:92-103 | A read returns the word in the device and changes nothing |
| PowerIoShield.Driver.SetMaskedRaw | drivers/power_io_shield/power_io_shield.c:246-278 | Each output pin in the mask gets its value, in the cache and in the device alike; a failed write changes neither |
| PowerIoShield.Driver.PortGetRaw | drivers/power_io_shield/power_io_shield.c:225-244 | The logical level of each pin, and the cache follows the device |
| PowerIoShield.Driver.PinConfigure | drivers/power_io_shield/power_io_shield.c:291-365 | Which flags each kind of pin supports, and the initial level of an output; a failed write leaves it in the cache only |
| PowerIoShield.Driver.ChangeWords | drivers/power_io_shield/power_io_shield.c:422-480 | The nested switches, with the trigger inverted for hard-inverted pins, change the cached words as the table of changes says |
| PowerIoShield.Driver.StoreConfig | drivers/power_io_shield/power_io_shield.c:410-482 | Under the lock the cached words take the configuration asked for that pin, and of no other pin |
| PowerIoShield.Driver.CheckRequest | drivers/power_io_shield/power_io_shield.c:379-408 | Which requests are refused before the lock is taken |
| PowerIoShield.Driver.PinInterruptConfigure | drivers/power_io_shield/power_io_shield.c:374-499 | The configuration of that pin and of no other changes; each error leaves everything alone; after success the device agrees with the cache if and only if each word its register lacked was written |
| PowerIoShield.LostWriteReportsSuccess | drivers/power_io_shield/power_io_shield.c:484-498 | An input for which success is reported and the device disagrees |
| PowerIoShield.Driver.WriteInterruptConfig | drivers/power_io_shield/power_io_shield.c:501-524 | Each of the three registers takes the cached word exactly if its write succeeds; the outputs stay |
| PowerIoShield.Driver.InterruptWork | drivers/power_io_shield/power_io_shield.c:173-223 | What an interrupt reports and whether the work runs again, by the configuration of each pin; nothing changes |
| PowerIoShield.EveryOutputRun | drivers/power_io_shield/power_io_shield.c:225-365 | Over every run the six output bits of cache and device are the values last given to the pins, whatever arrives on the other lines |
| PowerIoShield.EveryInterleaving | drivers/power_io_shield/power_io_shield.c:410-524 | In every interleaving of clients and work queue the device agrees with the cache when no write is owed or pending and the latest one reached it |
| PowerIoShield.NothingRefused | drivers/power_io_shield/power_io_shield.c:484-524 | A bus and a work queue that refuse nothing let the latest write reach the device |
| PowerIoShield.DoStep | drivers/power_io_shield/power_io_shield.c:410-524 | Each atomic part of the driver takes the step of the interleaving |
| PowerIoShield.EveryInterruptRun | drivers/power_io_shield/power_io_shield.c:374-524 | The driver in every interleaving: its words say of each pin what was last asked of it, and the device says so too when no write is owed or pending and the latest one reached it |

## Left out

- Zephyr, the external iso14229 server, ISO-TP, CAN, I2C and USB drivers, logging: foreign code, represented by queues, arrays, semaphores and parameters that say what succeeds.
- Null pointers in contexts and arguments: the checks for them are not modelled.
- Authentication, security access, session, reset, DTC, routine, link and communication control: thin handlers; dispatch has an abstract check and action for each registration instead.
- `hv_shield`, `binary_encoded_gpio`, `can_router`, `can_log`, baud rates, samples, west commands other than the two update clients.
- More than one UDS instance: dispatch ignores the instance of a registration, and the id lists are scanned across all instances.
- More than one handler of service 0x2C, and one registered dynamically: the model has the one static handler.
- Dispatch while an action changes the dynamic list: the list is fixed during a walk.
- Intrusive list pointers: a list is the sequence of its nodes' addresses, and unlinking a node removes it from the sequence.
- DynamicIdReentry.ReadAfterRun: sources are not themselves dynamic identifiers, because they would share the scratch buffer; `temp_buffer` with its length is the sequence of the bytes in it.
- DynamicIdRuns.EveryRunApart: no cleared identifier is also registered by somebody else; `EveryRun` has no such condition, and `StepIsMapsStep` says exactly what it is for. After a step that ends the run nothing is claimed.
- The alignment of flash addresses: lengths are whole write blocks, but the controller's demand on the address is not modelled.
- TransferRuns.DownloadRun: the place of the image can be programmed with it, as an erased region always can.
- HostFlasher.UploadFirmware: the range does not wrap and its place is erased; erasing, sessions and tester-present requests are not modelled, and blocks are shorter than 2^16 bytes, as the transport demands.
- The file handle after a failed `fs_stat`: the model speaks of the flags, the counters and the files.
- Compressed sizes, and file offsets beyond the size of one open file.
- LegacyUpdate.LegacyServer.HandleTransferData: what a failed flash write leaves in the flash, beyond that the block is not there; the pending response before the erase routine.
- LegacyUpdate.EveryRunInStep: the link loses a request or all answers to it, and does not reorder.
- LegacyUpdate.WriteImage: the two opening requests have been answered, and a lost answer is the timeout that the client's retry catches. The image is what the buffered write has taken; what a failed flush keeps of it from the flash is not modelled.
- LIN schedule delays and the `skip` semaphore, which nobody gives: the thread may sleep for any number of steps.
- LinScheduler.EveryInterleaving: one controlling client, the thread has initialised the semaphore before, and a give hands it directly to a waiting taker.
- LinCallbacks.AbstractLin.Find: the search loop of the driver's functions is written once; the assertion that a received frame has the registered size and the buffers that outgoing callbacks fill are not modelled.
- Lin2Can.Driver.Send: a payload has at most eight bytes; the wait for room in a full queue either ends with an error or is a poll before the send.
- Lin2Can.LinkDelivers: both ends are configured with the same four ids and the LIN bus loses nothing.
- PowerIoShield.Driver.PinConfigure: pins are those that the GPIO interface admits.
- The shield's initialisation, its interrupt line and callback list: the words start at zero, and the model says which pins are reported.
- Bit operations of the shield are defined digit by digit on numbers below 2^16, not on machine bit vectors.
- Real-time delays, session timeouts, reboots and the erase routine's work item.
