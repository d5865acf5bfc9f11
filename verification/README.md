# openusb, verified

A Dafny model of the parts of openusb in which something can go wrong: the Linux transfer engine, the
descriptor parser and the scanners beside it, the completion and event queues, the intrusive list, the bus
registry, interface ownership on Solaris, and the Intel HEX loader of the EZ-USB test. Each module follows one
part of the source. Code that works step by step is a method on a class, an array or the heap, proved against
a specification function; what the library promises is then proved about that function, over all inputs and all
runs.

- `Counting`, `BulkEngine`, `BulkRuns`, `BulkCompletion`, `BulkExactlyOnce`, `BulkPayload`: one bulk or
  interrupt request, split into URBs of 16 KB, and the kernel that holds them. The kernel is an environment that
  may finish any URB in flight at any moment with any result; a discard succeeds on an URB in flight only.
- `Isoc`, `IsocResults`: packing isochronous packets into URBs of 32 KB, and storing their results.
- `Descriptors`, `DescriptorParser`, `AltsettingWalk`, `AltsettingSlots`, `AltsettingCuts`, `DescriptorRoundTrip`,
  `DescriptorOutcomes`, `DescriptorScanners`, `DescriptorScans`, `DescriptorAgreement`, `Unpack`, `DescriptorFields`: USB
  descriptors (sections 9.5, 9.6.3, 9.6.5 and 9.6.6 of the USB 2.0 specification), from the format-directed unpacker
  up to the tree.
- `CompletionQueue`, `EventQueue`, `Timeouts`, `BusRegistry`, `Ring`, `Ownership`, `IntelHex`, `HexFile`: one part
  each; `Lists`: what several of them do with lists.

Parser results distinguish an error that the code reports from `Fault`, which stands for code that reads or writes
outside its memory, depends on a variable that was never set, or does not return; it is a result of the model, so the
theorems say exactly when it happens. The memory of a descriptor buffer includes the zeroed bytes that
openusb/src/descriptors.c:765 allocates behind it, so stepping over its end leads to an error, not outside.

## Where the code falls short of its intention

The model follows the code. Where that breaks what the code is for, the exact condition under which it works is
proved, or an input on which it fails:

- A cancel or timeout that comes after a first URB was reaped, or while the request is already being wound up, keeps
  the request from ever completing, because it charges every URB again (`BulkCompletion.LateDiscard`). One that comes
  before any reap completes it if and only if it did not lose the race to an URB that did not succeed
  (`DiscardExact`). The same condition decides a refused submission (`PartialSubmitExact`).
- An unknown error on the last URB is never reported (`LeavingExact`).
- A stall completes the request, and frees its URBs, while later URBs are still with the kernel (`StallFreesEarly`).
- A request of length 0 has no URB: `BulkIo.Submit` succeeds, and it is never completed (`ZeroLengthNeverCompletes`).
- The branch for -EREMOTEIO on submission tests the result of an ioctl, which is -1; it is never taken.
- `i * 16384` is a signed 32-bit product: buffers tile the payload up to 2^31 bytes and for no length above
  (`BuffersTile`).
- Without continuation flags a short read can be followed by data, and success is reported with a hole in it
  (`ShortReadHole`).
- A single isochronous packet above 32 KB is never placed (`AllPacketsPlaced`), and data of IN packets is read at the sum
  of the lengths that arrived, not of the lengths asked for (`ReadsOwnSlice`).
- When an endpoint fails to parse, the clean-up frees the endpoints of the slot behind the current one, over and over;
  in the last slot that is behind the array. On well-formed descriptors it happens exactly when the buffer ends before
  the announced endpoints do (`FaultsIff`, `ParserStaysInside`, `MissingEndpoint`).
- The count of alternate settings reads lengths as signed bytes; it fails exactly when its walk comes to look at a byte
  before the buffer or never ends (`CountFailsIff`, `StepsBefore`).
- The count of alternate settings is kept in one byte, so 256 of them, which is as many as there are setting
  numbers, get no slot (`SlotsSuffice`, `RoundTrip`, `AllAlternates`); the scanner's count wraps as well and stops at a
  larger interface number (`CountAgreesIff`).
- A dword is aligned with `& 2` only, so it is misplaced after an odd address (`StoresAreNatural`), as it is in the
  descriptor that openusb/src/openusb.h.in:688-711 gives as its example (`DocumentedDescriptor`).
- Padding is not taken off the destination's length, so stores can run over its end (`SucceedsWhenEnough`,
  `PaddingRunsOver`).
- A skipped byte is not checked against the length of the source. A format whose fields fit its destination reads behind
  its source if and only if it skips where the source has ended and has a field behind that (`SkipsPastIff`,
  `SkipIsUnchecked`).
- The same header documents counts in a format, as in "2b4dw", and a parse error; the code ignores every character that
  is no field and no skip (`OthersIgnored`, `CountsIgnored`) and reports a lack of resources instead.
- The "soonest" timeout is the one queued last (`WakesInTimeIff`, `SleepsTooLong`).
- A wait that finds nothing consumes a count all the same. From then on the count is below the length of the list, and
  exactly then a later wait may block over a request that is on it (`MissesIff`, `LostWakeup`) and polls may drive the
  count below zero (`NegativeIff`, `PollDrivesCountNegative`). Waits that name all that is on the list are safe
  (`NamingAllMissesNone`).
- Every back end's refresh drops the buses of the others (`SecondBackEndEvicts`).
- Claiming an interface again through the front end records alternate setting 0 although the endpoint table still
  describes another one (`FrontEndClaim`, `Reclaim`).
- The endpoint table has room for one interface: a handle that claims two is refused every endpoint of the first
  (`Admits`, `ClaimTwo`).
- Of HEX records that overlap, the image keeps the first byte and the file asks for the last (`OverwriteIsLost`).
- The line of a HEX record of more than 249 bytes does not fit into the loader's buffer with its newline, and the file
  is refused (`LoadsIff`, `AcceptedIff`, `LongRecord`); what is left of a long comment is read as a line (`LongRemark`).

## Model

| member | source | states |
|---|---|---|
| `BulkEngine.BulkIo.Submit` | openusb/src/linux.c:895-1010 | splits a request into 16 KB URBs and hands them to the kernel, set up and in turn; only a refusal by the kernel ends that before the last. If one is refused, the ones before it are discarded and the request is being wound up, unless it was the first, which is reported at once |
| `BulkEngine.BulkIo.SetupUrb` | openusb/src/linux.c:941-971 | URB `i` gets its slice of the payload, the remainder if it is the last, and the two read flags where they apply |
| `BulkEngine.BulkIo.DiscardUrbs` | openusb/src/linux.c:1246-1265 | discards all URBs, the reaped ones included, and counts each as cancelled or as still to be reaped |
| `BulkEngine.BulkIo.HandlePartialSubmit` | openusb/src/linux.c:1276-1311 | discards the URBs the kernel took |
| `BulkEngine.BulkIo.HandlePartialXfer` | openusb/src/linux.c:1659-1690 | discards the URBs behind a short one, trusting usbfs with those that have the continuation flag |
| `BulkEngine.BulkIo.HandleComplete` | openusb/src/linux.c:1392-1528 | the effect of one URB coming back: bytes, counters, action, discards and completion |
| `BulkEngine.Kernel.Discard` | openusb/src/linux.c:1252-1263 | the ioctl as the code reads it: it fails with EINVAL on an URB that is not in flight |
| `BulkRuns.SoundRun` | openusb/src/linux.c:1246-1311 | over every run, with whatever answers of the kernel, the counters of a request being wound up are 32-bit values that cover at least the URBs still out |
| `BulkCompletion.AtMostOnce` | openusb/src/linux.c:1392-1528 | a started or partly refused request is completed at most once in every run, its URBs are freed exactly when it is, and, stalls aside, only when no URB is left with the kernel |
| `BulkCompletion.DrainExact` | openusb/src/linux.c:1413-1486 | a request being wound up completes if and only if exactly as many URBs come back cancelled and successful as the counters say |
| `BulkCompletion.CountersFall` | openusb/src/linux.c:1413-1449 | while a request is being wound up each counter falls by one for an URB that came back in its way and never rises, but that the counter of cancelled URBs may wrap around |
| `BulkCompletion.DiscardExact` | openusb/src/linux.c:1246-1265 | a cancel or timeout in NORMAL completes the request, as cancelled or as timed out, if and only if nothing was reaped and no URB had finished unsuccessfully |
| `BulkCompletion.LateDiscard` | openusb/src/linux.c:1246-1265 | after a cancel or timeout that hits a request after a reap, or while it is being wound up for whatever reason, the request completes in no run, further discards included |
| `BulkCompletion.PartialSubmitExact` | openusb/src/linux.c:1276-1311 | a refused submission is reported, as a system failure, if and only if the URBs already finished had succeeded |
| `BulkCompletion.LeavingExact` | openusb/src/linux.c:1490-1525 | a short URB or an unknown error leads to a completion, with success or as a system failure, if and only if there are URBs behind it that come back as foreseen |
| `BulkCompletion.OthersGoOn` | openusb/src/linux.c:1488-1527 | any other URB but a stalled one is only reaped, and the last one completes the request with success |
| `BulkCompletion.StallFreesEarly` | openusb/src/linux.c:1499-1504 | a stall completes the request with URBs still in the kernel |
| `BulkCompletion.ZeroLengthNeverCompletes` | openusb/src/linux.c:910-1003 | a request without bytes has no URB and is never completed |
| `BulkExactlyOnce.CountersExact` | openusb/src/linux.c:1246-1311 | when usbfs keeps its contract, in every state but NORMAL, SUBMIT_FAILED included, the two counters add up to the URBs submitted and not yet reaped |
| `BulkExactlyOnce.ExactlyOnce` | openusb/src/linux.c:1392-1528 | then the request is completed exactly once, when the last URB submitted is reaped: with success, as cancelled or timed out if it was discarded before any reap, or as a system failure if an URB was refused |
| `BulkPayload.BuffersTile` | openusb/src/linux.c:910-971 | the URB buffers tile the payload if and only if it has at most 2^31 bytes |
| `BulkPayload.FlagsAtBoundaries` | openusb/src/linux.c:954-971 | at every boundary between URBs, where usbfs supports it, the second is flagged as the continuation and the first, of a read, as one that must not come back short; no other flag is set |
| `BulkPayload.BytesAreTheSum` | openusb/src/linux.c:1408-1411 | in every run `bytes_transferred` is the sum of the lengths reaped, never wraps and never exceeds the request |
| `BulkPayload.ShortReadPrefix` | openusb/src/linux.c:1507-1525 | on success the bytes written are exactly the first `bytes_transferred` ones if and only if no URB behind a short one moved data |
| `BulkPayload.ContinuationGivesPrefix` | openusb/src/linux.c:956-971 | with continuation flags and the usbfs contract that always holds |
| `BulkPayload.ShortReadHole` | openusb/src/linux.c:1507-1525 | without the flags there is a run that ends in success with a hole |
| `Isoc.PackingIsOptimal` | openusb/src/linux.c:1058-1154 | for packets of at most 32 KB the counting and the filling pass agree: all packets in order, none split, no URB above 32 KB, and no order-preserving packing with fewer URBs |
| `Isoc.AllPacketsPlaced` | openusb/src/linux.c:1090-1154 | all packets are placed if and only if each is at most 32 KB |
| `Isoc.SplitsAtFit` | openusb/src/linux.c:1058-1070 | the counting pass opens a URB exactly where the filling pass runs out of room |
| `Isoc.CountUrbs` | openusb/src/linux.c:1058-1070 | the counting loop, in its 32-bit arithmetic |
| `Isoc.FillUrb` | openusb/src/linux.c:1093-1146 | packs as many packets as fit and copies the payload of an OUT request |
| `Isoc.FillUrbs` | openusb/src/linux.c:1090-1154 | every URB has the packets, lengths and buffer that the partition gives it |
| `Isoc.PayloadInBuffer` | openusb/src/linux.c:1138-1146 | an outgoing packet lies in its URB's buffer where the lengths before it say |
| `IsocResults.IsocIo.HandleComplete` | openusb/src/linux.c:1568-1646 | stores result, length and data of each packet of an URB under the next indices, and completes after the last |
| `IsocResults.StoredAt` | openusb/src/linux.c:1574-1589 | exactly the URB's own packets are stored, each once: the length that arrived, the status only if it is an error, and the data of an IN packet |
| `IsocResults.StoredBytes` | openusb/src/linux.c:1587 | the byte count grows by what the packets brought, modulo 2^32 |
| `IsocResults.AfterCounts` | openusb/src/linux.c:1641-1646 | one completion, with the sum of all lengths, when the last URB is back and not before |
| `IsocResults.RoundTrip` | openusb/src/linux.c:1554-1646 | packed and reaped in order, every packet's report lands under its own index with the data read for it, the offset ends at the number of packets, and the request completes once |
| `IsocResults.ReadsOwnSlice` | openusb/src/linux.c:1571-1586 | the data of a packet is read from its own slice if and only if all packets before it in the URB came full |
| `DescriptorParser.SkipLoop` | openusb/src/descriptors.c:201-231 | where a run of class or vendor specific descriptors ends, or how it fails |
| `DescriptorParser.ReadEndpoint` | openusb/src/descriptors.c:136-250 | one endpoint with its extra bytes, every error branch included |
| `DescriptorParser.CountLaterAlts` | openusb/src/descriptors.c:252-275 | the count of interface descriptors with the same number, with lengths as signed bytes, steps back included |
| `AltsettingWalk.CountFailsIff` | openusb/src/descriptors.c:252-275 | the count fails if and only if its walk over signed lengths never ends or comes to a place from which it looks before the buffer, two bytes before it or more |
| `AltsettingWalk.CountMeets` | openusb/src/descriptors.c:252-275 | otherwise it is the number of steps that lead to an interface descriptor with the number |
| `AltsettingWalk.StepsBack` | openusb/src/descriptors.c:252-275 | it may step back and still end |
| `AltsettingWalk.StepsBefore` | openusb/src/descriptors.c:252-275 | from one byte before the buffer it counts an interface and ends; from two bytes before it fails |
| `DescriptorParser.ReadEndpoints` | openusb/src/descriptors.c:428-463 | the endpoints of one alternate setting, the first failure ending it |
| `DescriptorParser.ReadAlt` | openusb/src/descriptors.c:313-479 | one pass of the loop over alternate settings, the clean-up after a failed endpoint included |
| `DescriptorParser.ReadAlts` | openusb/src/descriptors.c:313-482 | the loop, into the slots allocated |
| `DescriptorParser.ReadInterface` | openusb/src/descriptors.c:277-482 | an interface with all its alternate settings |
| `DescriptorParser.ReadInterfaces` | openusb/src/descriptors.c:589-600 | the loop over interfaces |
| `DescriptorParser.ReadConfiguration` | openusb/src/descriptors.c:484-603 | the whole configuration and how many bytes are left |
| `DescriptorOutcomes.SkipIff` | openusb/src/descriptors.c:201-231 | on any bytes a run of other descriptors ends at the first standard descriptor, or near the end, that length bytes lead to, and fails if and only if they lead to none |
| `DescriptorOutcomes.EndpointOutcome` | openusb/src/descriptors.c:136-250 | on any bytes: when an endpoint is refused, when it is left alone as one of zeroes, and what it is otherwise |
| `DescriptorOutcomes.AltOutcome` | openusb/src/descriptors.c:313-479 | the same for an alternate setting and each way it ends |
| `DescriptorOutcomes.InterfaceOutcome` | openusb/src/descriptors.c:277-311 | the same for an interface |
| `DescriptorOutcomes.AltsOutcome` | openusb/src/descriptors.c:313-316 | the loop over settings ends with less than 9 bytes left, and leaves its memory without a slot |
| `DescriptorOutcomes.InterfacesOutcome` | openusb/src/descriptors.c:589-601 | interfaces fail as the first that does, and those without bytes stay empty |
| `DescriptorOutcomes.ConfigurationOutcome` | openusb/src/descriptors.c:484-603 | the same for a configuration |
| `AltsettingSlots.LaterAltsCounts` | openusb/src/descriptors.c:252-275 | on descriptors of 2 to 127 bytes the count is the number of later interface descriptors with that number |
| `AltsettingCuts.AltsInside` | openusb/src/descriptors.c:313-479 | with the slots counted the loop leaves its memory if and only if it comes to a setting whose endpoints are cut short |
| `AltsettingSlots.AltExact` | openusb/src/descriptors.c:313-479 | a setting starts and ends between descriptors; it leaves the memory if and only if its endpoints are cut short and its slot is the last |
| `AltsettingSlots.EndpointsExact` | openusb/src/descriptors.c:428-463 | endpoints end between descriptors, and fail if and only if the descriptors run out |
| `AltsettingSlots.FewerSlots` | openusb/src/descriptors.c:311-320 | with fewer slots it does the same as long as the settings fit, and leaves its memory otherwise |
| `AltsettingCuts.SlotsSuffice` | openusb/src/descriptors.c:252-479 | where alternate settings continue their interface, the settings filled never exceed those counted; with the count truncated to a byte the parser succeeds if and only if they still fit |
| `AltsettingSlots.FaultsIff` | openusb/src/descriptors.c:484-603 | on every sequence of descriptors of 2 to 127 bytes the parser faults, or refuses the configuration, if and only if what is read off the descriptors says so: a setting without a slot or cut short in the last slot, or one cut short in another slot, too many endpoints or too many interfaces; otherwise it gives a tree and what is left starts at a descriptor |
| `AltsettingCuts.ParserStaysInside` | openusb/src/descriptors.c:484-603 | where settings continue their interface, with at most 255 a number, it does so if and only if it comes to an interface descriptor whose endpoints are cut short by the end of the buffer |
| `AltsettingCuts.EndpointsThere` | openusb/src/descriptors.c:428-463 | so never when every interface descriptor is followed by its endpoints |
| `AltsettingCuts.MissingEndpoint` | openusb/src/descriptors.c:446-458 | and it does for a well-formed configuration that ends without the one endpoint announced |
| `DescriptorRoundTrip.EndpointsParsed` | openusb/src/descriptors.c:136-250 | printed endpoints are parsed back with their extra bytes |
| `DescriptorRoundTrip.AltsParsed` | openusb/src/descriptors.c:313-479 | printed alternate settings are parsed back if there are slots for them |
| `DescriptorRoundTrip.InterfacesParsed` | openusb/src/descriptors.c:589-600 | so are printed interfaces, if and only if the slots counted for each, modulo 256, suffice |
| `DescriptorRoundTrip.RoundTrip` | openusb/src/descriptors.c:484-603 | parsing what any well-formed configuration prints gives back its tree with every extra slice and 0 bytes left, if and only if its slots fit |
| `DescriptorRoundTrip.FitWhenDistinct` | openusb/src/descriptors.c:300-311 | with distinct interface numbers they fit if and only if no interface has more than 255 settings |
| `DescriptorRoundTrip.AllAlternates` | openusb/src/descriptors.c:300-311 | a well-formed configuration with 256 settings gets no tree |
| `DescriptorScanners.ParseInterfaceDesc` | openusb/src/devices.c:973-1031 | the scan for an interface descriptor, with its error codes |
| `DescriptorScanners.FindNthDesc` | openusb/src/devices.c:1034-1056 | the n-th descriptor of a type before the next one of another type |
| `DescriptorScanners.ParseEndpointDesc` | openusb/src/devices.c:1058-1134 | the scan for an endpoint descriptor, with its error codes |
| `DescriptorScanners.GetNumAltsettings` | openusb/src/devices.c:377-414 | the scan that counts alternate settings, in one byte |
| `DescriptorScans.InterfaceScan` | openusb/src/devices.c:973-1031 | on any bytes: what the scan for an interface reports for the first place with the two numbers that length bytes lead to, and a parse error if and only if there is none |
| `DescriptorScans.EndpointScan` | openusb/src/devices.c:1058-1134 | the same for the scan for an endpoint, which goes on behind that place |
| `DescriptorScans.EndpointAt` | openusb/src/devices.c:1096-1134 | where it reports the endpoint with the index before the next interface, or a bad argument or a parse error exactly when there is none |
| `DescriptorScans.CountScan` | openusb/src/devices.c:377-414 | on any bytes the count is that of the interfaces before the first place where it ends, modulo 256, and fails if and only if it comes to no such place |
| `DescriptorAgreement.InterfaceAgrees` | openusb/src/devices.c:973-1031 | on every well-formed configuration the scan returns the fields of the first alternate setting of the tree with the two numbers, and a parse error if there is none |
| `DescriptorAgreement.EndpointAgrees` | openusb/src/devices.c:1034-1134 | the same for the endpoint of an alternate setting; an index it does not have is a bad argument |
| `DescriptorAgreement.NodesFound` | openusb/src/devices.c:973-1134 | with distinct pairs of numbers both scans find every node of the tree |
| `DescriptorAgreement.AltsCounted` | openusb/src/devices.c:377-414 | the count is that of the settings before the first larger interface number, modulo 256 |
| `DescriptorAgreement.CountAgreesIff` | openusb/src/devices.c:377-414 | it equals the tree node's number of settings if and only if there are at most 255 and no larger interface number comes before |
| `Unpack.ParseData` | openusb/src/descriptors.c:47-120 | the unpacker, all format characters, its unsigned length and its alignment, stores behind the destination included |
| `Unpack.UnpackInvertsPack` | openusb/src/descriptors.c:47-120 | unpacking inverts packing, for every format of bytes, words, dwords and skips, if and only if the destination has room for fields and padding |
| `Unpack.StoresAreNatural` | openusb/src/descriptors.c:76-92 | the stores hit the members of the C structure if and only if no dword comes up at an odd address |
| `Unpack.NoDwords` | openusb/src/descriptors.c:60-80 | so always for formats of bytes, words and skips |
| `Unpack.SucceedsWhenEnough` | openusb/src/descriptors.c:63-118 | every format succeeds if and only if the source reaches to the end of its last field and the destination has room for fields and padding; it goes outside its memory if and only if, read off the format, some field is affordable by the lengths kept but is behind the source or, padded, behind the destination |
| `Unpack.PaddingRunsOver` | openusb/src/descriptors.c:70-80 | a byte and a word into three bytes run over the end |
| `Unpack.SkipIsUnchecked` | openusb/src/descriptors.c:60-62 | a skip counts although the source has no byte left, and a field behind it is read behind the source |
| `Unpack.SkipsPastIff` | openusb/src/descriptors.c:60-62 | with room in the destination a format reads behind its source if and only if it skips where the source has ended and has a field behind that |
| `Unpack.CopiesAsIs` | openusb/src/descriptors.c:93-112 | the undocumented characters copy the source bytes, on either kind of CPU |
| `Unpack.ConvertsToCpu` | openusb/src/descriptors.c:64-92 | the documented ones store the little-endian number, on either kind of CPU |
| `Unpack.DocumentedDescriptor` | openusb/src/openusb.h.in:688-711 | the documented "bwbd" puts its dword at offset 5, not at the 8 documented |
| `Unpack.OthersIgnored` | openusb/src/openusb.h.in:671-676 | characters that are no field and no skip are ignored, documented counts among them |
| `Unpack.CountsIgnored` | openusb/src/openusb.h.in:671-676 | so "2b" unpacks one byte, not two |
| `DescriptorFields.InterfaceStored` | openusb/src/descriptors.c:318-322 | the nine fields of an interface descriptor are what the unpacker stores into its structure |
| `DescriptorFields.EndpointStored` | openusb/src/descriptors.c:181-183 | so are the common fields of an endpoint descriptor; without the audio fields these are zero |
| `DescriptorFields.AudioEndpointStored` | openusb/src/descriptors.c:178-180 | and all of those of one with the audio fields |
| `DescriptorFields.ConfigStored` | openusb/src/descriptors.c:500-502 | and those of a configuration descriptor |
| `DescriptorFields.ConfigCutShort` | openusb/src/descriptors.c:500-502 | of one cut short the fields that are there are stored and the others are zero |
| `CompletionQueue.Handle.Complete` | openusb/src/io.c:145-164 | appends the request to the completed ones and counts it, as one step of the runs below |
| `CompletionQueue.Handle.WaitScan` | openusb/src/api.c:936-989 | returns the first completed request among the handles, which was never returned before and is the only one to leave the list, or nothing if and only if there is none; decrements the count in both cases |
| `CompletionQueue.Handle.Poll` | openusb/src/api.c:1027-1063 | the same without waiting, and the count stays when there is none |
| `CompletionQueue.Conservation` | openusb/src/api.c:936-1063 | over every run nothing is lost or delivered twice, order is kept, and the list length minus the count is the number of failed wait scans |
| `CompletionQueue.TakesEarliest` | openusb/src/api.c:943-978 | a successful wait or poll takes the earliest completed request among its handles |
| `CompletionQueue.BlocksOnlyUnmatched` | openusb/src/api.c:936-989 | with one waiter and no poll, a call that blocks after a scan has nothing of its own on the list |
| `CompletionQueue.MissesIff` | openusb/src/api.c:936-989 | between calls, some later call may block before its first scan over a request of its own, with no scan failing any more, if and only if the count is below the length of the list, that is, some scan has failed |
| `CompletionQueue.NamingAllMissesNone` | openusb/src/api.c:936-989 | waits that name all that is on the list never fail to find one and never block while one is there |
| `CompletionQueue.LostWakeup` | openusb/src/api.c:976-989 | a run in which a wait blocks over its own completed request |
| `CompletionQueue.NegativeIff` | openusb/src/api.c:1027-1063 | polls may drive the count below zero, with no scan failing any more, if and only if it is below the length of the list |
| `CompletionQueue.PollDrivesCountNegative` | openusb/src/api.c:1027-1063 | with polls the count can become negative |
| `EventQueue.Library.AddDevice` | openusb/src/devices.c:209-234 | a new id, then one arrival event for each handle, as the sequence of steps of one thread |
| `EventQueue.Library.RemoveDevice` | openusb/src/devices.c:253-276 | the device leaves the list, then one removal event for each handle, as the sequence of steps of one thread |
| `EventQueue.Library.AddEventCallback` | openusb/src/usb.c:108-137 | queues and counts one event: one step of the runs below |
| `EventQueue.Library.WakeUp` | openusb/src/usb.c:145-187 | the dispatcher takes the first event, if there is one, and calls |
| `EventQueue.Library.Delivered` | openusb/src/usb.c:196-203 | back from the call it goes on with the next element or to the top |
| `EventQueue.Fifo` | openusb/src/usb.c:139-207 | over every interleaving of device changes, event by event, with the dispatcher: events are delivered in order and once, the count is the queue length plus one during a callback, and the dispatcher never sleeps over a queued event |
| `EventQueue.AttachThenRemove` | openusb/src/devices.c:209-276 | over the same runs a handle that stays open is called for each new device with its arrival, then its removal, each at most once; the rest is queued or about to be |
| `EventQueue.ToldSinceOpening` | openusb/src/devices.c:209-276 | in every run of the library from its start this holds for a handle from its opening on, and for the devices that come after that |
| `BusRegistry.Registry.AddBus` | openusb/src/devices.c:28-47 | appends the bus with the next id |
| `BusRegistry.Registry.Sweep` | openusb/src/devices.c:146-181 | the loop that matches known buses with reported ones |
| `BusRegistry.Registry.RefreshBus` | openusb/src/devices.c:124-193 | the registry after a refresh, or unchanged if the back end cannot report |
| `BusRegistry.RefreshIsBijective` | openusb/src/devices.c:124-193 | after it the list and the reported buses correspond one to one: survivors match by number or path, the others are the reported buses with new ids |
| `BusRegistry.SurvivorsKeepOrder` | openusb/src/devices.c:146-181 | survivors keep their id and their order |
| `BusRegistry.IdsIncrease` | openusb/src/devices.c:28-47 | over all runs the ids on the list are strictly increasing and below the next one |
| `BusRegistry.StaysIffReported` | openusb/src/devices.c:146-181 | without competition for a reported bus, a known bus stays if and only if it is still reported |
| `BusRegistry.SecondBackEndEvicts` | openusb/src/devices.c:195-206 | after any refresh the list has only buses with a number or path in the report, as many as there: those of every other back end are gone |
| `BusRegistry.NothingInCommon` | openusb/src/devices.c:146-191 | a report with nothing in common with the list replaces all of it |
| `Ring.ListInit` | openusb/src/list.c:4-7 | a circle of one |
| `Ring.ListAdd` | openusb/src/list.c:9-16 | appends at the tail of any circle |
| `Ring.ListDel` | openusb/src/list.c:18-29 | removes exactly that node and keeps the order of the others; writes nothing if the node is detached |
| `Ring.ListDelTwice` | openusb/src/list.c:18-29 | a second deletion changes nothing |
| `Ring.Traverse` | openusb/src/list.h:26-29 | visits the nodes behind the head once each, in order |
| `Ring.TraverseSafe` | openusb/src/list.h:31-35 | also when any of the visited nodes are deleted on the way; the others stay linked in order |
| `Timeouts.SetDeadline` | openusb/src/io.c:51-69 | the deadline is the start plus the timeout to the microsecond, 0 meaning the longest; its microseconds may be left at a full second |
| `Timeouts.ExpiryExact` | openusb/src/usb.c:1155-1168 | the expiry test holds if and only if the deadline is reached, in either form |
| `Timeouts.SelectTimeout` | openusb/src/usb.c:1291-1308 | sleeps for the time left, and not at all if the deadline passed |
| `Timeouts.NextTimeout` | openusb/src/usb.c:1261-1289 | the deadline the loop over pending requests picks; none if and only if no request is pending |
| `Timeouts.CompareOrders` | openusb/src/usb.c:1155-1168 | the comparison is -1, 0 or 1 as the first time is earlier, the same or later |
| `Timeouts.FoundIsLast` | openusb/src/usb.c:1276-1282 | it is that of the last pending request |
| `Timeouts.WakesInTimeIff` | openusb/src/usb.c:1261-1308 | the thread wakes in time for all requests if and only if the last one is the first to expire |
| `Timeouts.SleepsTooLong` | openusb/src/usb.c:1276-1282 | two requests for which it does not |
| `Ownership.EpIndexTells` | openusb/src/sunos.c:1353-1358 | two valid addresses share a table index only if they are the same endpoint |
| `Ownership.EpIndexOrder` | openusb/src/sunos.c:1353-1358 | outgoing endpoints have the first sixteen indices, incoming ones the others |
| `Ownership.DevHandle.ReleaseAll` | openusb/src/sunos.c:1531-1565 | closing a handle gives up exactly its interfaces |
| `Ownership.DevHandle.SetEpIfaceAlts` | openusb/src/sunos.c:1361-1390 | the endpoint table names the interface for exactly the endpoints of the alternate setting |
| `Ownership.DevHandle.ClaimInterface` | openusb/src/sunos.c:1399-1441 | a claim succeeds only on a free interface or one already owned, and keeps device and handles consistent |
| `Ownership.DevHandle.ReleaseInterface` | openusb/src/sunos.c:1443-1466 | gives up an owned interface and keeps them consistent |
| `Ownership.DevHandle.SetAltInterface` | openusb/src/sunos.c:2397-2419 | changes the setting of an owned interface and keeps them consistent |
| `Ownership.DevHandle.Admits` | openusb/src/sunos.c:1742-1774 | admits exactly the endpoints of the current setting of an interface that the handle owns and entered last |
| `Ownership.DevHandle.ClaimTwo` | openusb/src/sunos.c:1373-1390 | with two interfaces claimed every endpoint of the first is refused |
| `Ownership.DevHandle.FrontEndClaim` | openusb/src/api.c:113-121 | the front end claims exactly what the back end does, and keeps them consistent if and only if it does not re-claim an interface whose setting has other endpoints than setting 0 |
| `Ownership.DevHandle.Reclaim` | openusb/src/api.c:113-121 | which breaks it whenever the interface was set to a setting with other endpoints |
| `Ownership.MarkedIffOwner` | openusb/src/sunos.c:1399-1466 | in every consistent state a handle marks an interface claimed if and only if the device records it as the owner |
| `Ownership.Exclusive` | openusb/src/sunos.c:1399-1466 | so no two handles own one interface |
| `Ownership.RunCalls` | openusb/src/sunos.c:1270-1566 | any sequence of openings, closings, claims, releases and set-alts by any handles is answered, and leaves the owners, as an abstract account of it says; marks and owners agree, no interface has two owners and none belongs to a closed handle |
| `Ownership.OwnsIff` | openusb/src/sunos.c:1399-1566 | in that account a handle owns an interface if and only if it claimed it while it was free and neither gave it up nor was closed since |
| `Ownership.OpenIff` | openusb/src/sunos.c:1270-1566 | a handle is open if and only if a call opened it and none closed it since |
| `Ownership.Refusals` | openusb/src/sunos.c:1399-1466 | which refusal a call gets: an unknown handle, an interface that another handle owns, or one that the handle does not own |
| `IntelHex.Image.AddRecord` | openusb/tests/ezusb.c:150-183 | extends the newest block or starts one |
| `IntelHex.Image.WriteImage` | openusb/tests/ezusb.c:192-205 | the memory after writing the blocks in list order |
| `IntelHex.BlocksHoldFirst` | openusb/tests/ezusb.c:147-205 | it holds at each address the byte of the first record that covers it |
| `IntelHex.MergingPreservesImageIff` | openusb/tests/ezusb.c:147-205 | merging preserves the image if and only if first and last writer agree at every address |
| `IntelHex.MergingPreservesImage` | openusb/tests/ezusb.c:147-205 | in particular for records with disjoint addresses |
| `IntelHex.OverwriteIsLost` | openusb/tests/ezusb.c:192-205 | and not for a record that overwrites another |
| `IntelHex.BlockLengths` | openusb/tests/ezusb.c:150-180 | no block is longer than 766 bytes, so its 16-bit length never wraps |
| `IntelHex.LoadImage` | openusb/tests/ezusb.c:85-189 | the blocks of the data records up to the end mark or the first bad line, with lines cut by the 512-byte buffer |
| `IntelHex.Fgets` | openusb/tests/ezusb.c:103-111 | at most one line, and no more than fits into the buffer |
| `HexFile.ParsePrinted` | openusb/tests/ezusb.c:117-183 | the printed line of any record, in upper or lower case and with blanks behind it, is read back as that record |
| `HexFile.LoadsIff` | openusb/tests/ezusb.c:102-187 | a file of records, truncated records, comments, lines of another record type and any other lines is loaded if and only if it has only comments and records, and each record fits into the buffer with its newline and has two characters behind its data; then just its records are loaded, in order |
| `HexFile.AcceptedIff` | openusb/tests/ezusb.c:103-147 | with its checksum and nothing else a record is accepted if and only if it has at most 249 bytes |
| `HexFile.LongRecord` | openusb/tests/ezusb.c:103-120 | so a file with one record of 250 bytes is refused |
| `HexFile.LongRemark` | openusb/tests/ezusb.c:103-115 | what is left of a comment that does not fit is read as a line of its own |
| `HexFile.LoadAndWrite` | openusb/tests/ezusb.c:85-205 | loading and writing such a file, its records disjoint, leaves exactly what they say in memory if it is loaded, and it is refused otherwise |

## Left out

- Locks and threads: every action under a lock is one atomic step; an URB that finishes during a discard loop counts as finished before it.
- BulkEngine.Kernel.Discard: fails with EINVAL only, so the paths for other errno values of a discard are not modelled; a discarded URB has length 0.
- BulkRuns.SoundRun: assumes fewer than 2^32 URBs charged by repeated discards, so that the 32-bit counters do not wrap.
- BulkExactlyOnce.ExactlyOnce: URBs are reaped in the order they were submitted; reaping out of order is not modelled.
- IsocResults.IsocIo.HandleComplete: URBs with status 0 of a request that was not cancelled; isochronous cancel, partial and error paths are left out. Payload contents are records of which bytes were copied, not the bytes.
- Unpack.SkipsPastIff: formats of at most 2^32 - 4 characters; a longer run of skips wraps the length around once more. `SucceedsWhenEnough` has no such bound.
- Unpack.ParseData: the byte order of the CPU, which matters for `W` and `D` only, is a parameter, and the destination is a list of typed stores.
- DescriptorParser.ReadConfiguration: the tree is built as a value; of freeing its structures on errors only the access behind the slots is modelled.
- DescriptorScanners.ParseInterfaceDesc: the variant that fetches the raw descriptor itself, and the check of the library handle, are left out.
- DescriptorScanners.ParseEndpointDesc: likewise; the two audio members, which it does not write, are not in its result.
- CompletionQueue.Conservation: each request completes once, and devices are not closed meanwhile; callbacks of requests are left out.
- EventQueue.Library.RemoveDevice: freeing the device and the bus's own device list are left out; one device changes at a time.
- Timeouts.NextTimeout: is the loop of usb.c; its variant in linux.c:1800-1817, which ends at the first isochronous request, is left out.
- BusRegistry.Registry.RefreshBus: ids are unbounded numbers; the 64-bit counter does not roll over. The lists are sequences, relinked as `Ring` proves.
- Ownership.DevHandle.ClaimInterface: opening the device nodes, and the tables as arrays in place; they are sequences that the methods reassign.
- HexFile.LoadsIff: comments fit into the buffer, and a longer one is cut as `LongRemark` says; what follows the data of a record has no '#' or ':', with which the rest of a line that is cut could pass for another.
- IntelHex.LoadImage: lines hold hexadecimal digits where these are read; other characters, NUL characters and addresses that run over 16 bits inside one record are left out.
- Memory allocation failure, debug printing, ioctls, file descriptors, pipes and `select`.
- Control transfers: one URB each, nothing to split or count.
- Multi-request mode, device matching by class, hotplug bookkeeping, and the back ends for BSD and Darwin: unfinished or thin.
