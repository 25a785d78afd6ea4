# Verified models of ESP8266_RTOS_SDK components and the wireless UART client

A Dafny 4.11 project that models seven pieces of the repository and proves what they promise. Each module names the
source function it models in its doc comments; `dafny verify dfyconfig.toml` checks everything.

- **Ring buffer** (`RingLayout`, `RingSteps`, `RingReturn`, `RingMemory`, `RingBuffer`, `RingReports`, `RingPlaces`,
  `ByteRing`, `RingSemaphore`). `Ring` is the no-split and allow-split buffer as the code keeps it: bytes of headers and data in one
  store, three pointers, a full flag and a counter. A ghost layout says which parts lie where. Its invariant, kept by
  every method and so by every run, is that the bytes are those parts, that parts do not overlap, that the flag is set
  exactly when the write pointer meets the free pointer with content, and that what was received followed by what is
  queued makes up exactly what was sent. `ByteBuffer` is the byte mode as a bounded stream. `RingSemaphore` is the
  announcement of items as a protocol between any number of tasks.
- **mDNS responder** (`MdnsName`, `MdnsNameProof`, `MdnsNameRoom`, `MdnsNameLabels`, `MdnsNameForms`, `MdnsPacket`,
  `MdnsTxt`, `MdnsTxtBounds`, `MdnsTxtNames`, `MdnsSrv`, `MdnsQueue`, `MdnsProbes`, `MdnsAnnounce`, `MdnsResponder`).
  Name compression and its reader (section 4.1.4 of RFC 1035), TXT data (sections 6.1 to 6.4 of RFC 6763), SRV
  tie-breaking (section 8.2 of RFC 6762), and the transmit queue with the probing states (sections 8.1 and 8.3 of RFC
  6762). Every method of `Responder` is one critical section, so that any order of calls is an interleaving of the timer
  task and the service task.
- **Event loop** (`EventRegistry`, `EventRegistryProof`, `EventRegisterAgain`, `EventRemoval`, `EventHistory`,
  `EventLoop`). The three-level registry refines one flat list.
- **OTA selection** (`OtaSelect`). Two records, an uninterpreted checksum, and a power supply that may fail in the
  middle of a write.
- **Task scheduler** (`TaskScheduler`). The work list of `idf.py`, with its termination measure.
- **Command-line splitter** (`SplitArgv`, `SplitArgvProof`). The in-place loop against a tokenizer on values, and the
  tokenizer against every way of quoting an argument list.
- **UART packets** (`UartCodec`, `UartForms`, `UartPacket`). The escape codec, the frame, and the parser.

Code that changes things step by step is modelled by methods with loops, and each is proved to compute a function on
values; the lemmas about that function are the properties. `Bytes` holds what the modules share.

## Where the code falls short of its description

- `prvReturnItemDefault` clears the full flag when the free pointer meets the read pointer (lines 457-459 of
  `ringbuf.c`), also when a full buffer was wholly received and only one of several items came back.
  `RingReports.ReturnSafeIff` says exactly when a return is safe, `RingBuffer.Ring.ReturnItem` states both outcomes, and
  `RingReports.FullyReceivedBufferLosesItem` is the smallest loss.
- `prvGetCurMaxSizeNoSplit` and `prvGetCurMaxSizeAllowSplit` compare the free size, a `BaseType_t` and so an `int`
  (line 68 of `portmacro.h`), with a `size_t` (lines 498 and 528 of `ringbuf.c`). The comparison is unsigned: a negative
  size counts as larger than the maximum and is reported as the maximum, and the branch for negative sizes is never
  taken. `RingReports.NoSplitReportExactIff` and `RingReports.SplitReportKeptIff` say exactly when the reports are right
  all the same; `RingReports.NoSplitReportNotExact` and `RingReports.SplitReportNotKept` are states in which not even
  one byte fits and the maximal size is reported.
- `_mdns_append_fqdn` is described as returning 0 on error. `MdnsNameRoom.ZeroReportedIff` says when it does, and
  `MdnsNameRoom.ErrorReportsLengthIff` when an error reports a positive length instead: exactly when the writer gets
  stuck behind a label it has written out. `MdnsNameProof.UnfinishedNameReported` is such a call.
  All these conditions are on the packet, the bytes behind it and the labels before the call.
- The search for a name that is in the packet already reads on behind the packet, into zeros or into what an earlier
  packet left, so that it can take the name being written for an earlier one. The pointer then leads to the name itself,
  every nested append succeeds, and the name cannot be read. `MdnsNameRoom.RoundTripIff` says exactly when a name reads
  back, and `MdnsNameLabels.RoundTripBelow` that, where every match below the name ends in the packet, it does exactly
  when no match lies at or behind its beginning. `MdnsNameLabels.DifferentLabelsReadBack` and
  `MdnsNameLabels.ReadsBackUnlessDoubled` tell from the labels which names are safe, as long as no label holds the
  length of a label as a byte: those whose labels are all different, and where zeros lie behind, those that do not end
  in labels that repeat the ones just before them.
  `MdnsNameLabels.LocalLocalPointsToItself` is the question for a host called "local".
- `_mdns_result_txt_create` fills an array with one element for every counted string, but a string without `=` makes
  it skip a byte, and it may then find more strings than were counted and write behind the array.
  `MdnsTxtBounds.AlignedParses` gives a condition under which it does not, `MdnsTxtBounds.WalksAgreeIff` says that
  this is exactly the condition under which the parser looks at the counted strings, `MdnsTxtBounds.OverrunIff` says
  when it writes behind the array, and `MdnsTxtBounds.BareKeyOverruns` and `MdnsTxtBounds.TerminatedKeyOverruns` are
  records for which it does.
- Going back to factory erases two sectors one after the other. `OtaSelect.FactoryInterrupted` says exactly when a power
  loss in between boots neither the old choice nor the default, and `OtaSelect.FactoryInterruptedReachable` gets there.
- Setting the test application as boot partition succeeds and boots the first OTA slot, since only the low four bits of
  the subtype count. `OtaSelect.OtaData.SetThenGet` says that this is the only application partition for which a
  switch that succeeds does not boot what was set; `OtaSelect.TestApplicationNotBooted` is the smallest case.
- `bytes_decode` takes `:` to `?`, and `g` and `h` in either case, for hex digits and then raises an exception.
  `UartCodec.DecodeRaisesIff` says exactly when, and `UartCodec.ColonRaises` is the shortest kind of input.
- A handler that is registered twice for the same events runs once or twice, depending on what was registered in
  between, and unregistering it need not take both away (`EventRegistryProof.RegisterAppends`,
  `EventRegisterAgain.RegisterReplaces`, `EventRemoval.UnregisterDrops`; `EventRemoval.RunsTwiceThenOnce` is an input).
  `EventHistory.AgainIff` tells from what was registered in between whether it runs twice.
- Whether the removal of an event handler is reported as a success depends on its neighbours: for a specific id exactly
  when the handler was alone in its id node, in a loop node exactly when some base node held nothing else, but for any
  id of a base, and for every event, whenever the handler was there (`EventRegistryProof.IdsReport`, `BasesReport` and
  `BaseReport`; `SharedNodeReportsFailure` and `SharedBaseReportsSuccess` are inputs). The registry is right all the
  same for a triple that is there once (`EventRemoval.UnregisterRemoves`).

## Model

| member | source | states |
|---|---|---|
| RingBuffer.Ring.constructor | esp8266/ESP8266_RTOS_SDK/components/esp_ringbuf/ringbuf.c:655-737 | an item buffer starts empty, with its size rounded up to the alignment |
| RingBuffer.Ring.Send | esp8266/ESP8266_RTOS_SDK/components/esp_ringbuf/ringbuf.c:744-800 | accepts an item exactly when it has a place now and, up to one byte in a no-split store of odd size, would have one in an empty buffer wherever its pointers are; then the queue of items grows by exactly that item at its end, the bytes sent so far stay readable in order, and no item that is out changes; a refusal changes nothing |
| RingBuffer.Ring.CopyItem | esp8266/ESP8266_RTOS_SDK/components/esp_ringbuf/ringbuf.c:205-292 | what either copy function leaves: the layout with the item, in bytes, pointers, counter and full flag |
| RingPlaces.AcceptedByPlaces | esp8266/ESP8266_RTOS_SDK/components/esp_ringbuf/ringbuf.c:744-760 | in every valid buffer an item is accepted if and only if it has a place, as one part, behind a dummy, or as two non-empty parts, and one of its length has such a place in an empty buffer wherever its pointers are |
| RingPlaces.AcceptedIff | esp8266/ESP8266_RTOS_SDK/components/esp_ringbuf/ringbuf.c:160-186 | what fits has a place and what has a place fits |
| RingPlaces.SplitLimitIff | esp8266/ESP8266_RTOS_SDK/components/esp_ringbuf/ringbuf.c:697-702 | with splitting the maximal item size is the largest that has a place in an empty buffer wherever its pointers are |
| RingPlaces.NoSplitLimitIff | esp8266/ESP8266_RTOS_SDK/components/esp_ringbuf/ringbuf.c:687-696 | without splitting, too, but for an odd size, where one byte more would have a place |
| RingBuffer.Ring.CopyItemNoSplit | esp8266/ESP8266_RTOS_SDK/components/esp_ringbuf/ringbuf.c:205-240 | the bytes, pointers, counter and full flag after a copy are those of the layout with the item behind a dummy or in place |
| RingBuffer.Ring.CopyItemAllowSplit | esp8266/ESP8266_RTOS_SDK/components/esp_ringbuf/ringbuf.c:242-292 | the same for an item that is cut at the end of the store; a header-only remainder becomes a dummy |
| RingBuffer.Ring.WriteItem | esp8266/ESP8266_RTOS_SDK/components/esp_ringbuf/ringbuf.c:222-239 | header and data go to the write pointer, the counter grows, the pointer wraps when no header fits, and the flag is set when it meets the free pointer |
| RingBuffer.Ring.WriteFirst | esp8266/ESP8266_RTOS_SDK/components/esp_ringbuf/ringbuf.c:251-272 | the first piece or the dummy fills the store up to its end and only a piece with data is counted |
| RingBuffer.Ring.GetCurFreeSize | esp8266/ESP8266_RTOS_SDK/components/esp_ringbuf/ringbuf.c:477-534 | the report of the code, whose comparison with the maximum is unsigned; without splitting it is exact if and only if there is no short gap; with splitting every reported size is accepted if and only if the size before the clamp is not negative or the maximal item fits behind the write pointer, and by how much the report then stays below what is accepted; a negative size is reported as the maximal one |
| RingBuffer.Ring.CheckItemAvail | esp8266/ESP8266_RTOS_SDK/components/esp_ringbuf/ringbuf.c:324-334 | true exactly when a piece is queued |
| RingBuffer.Ring.GetItem | esp8266/ESP8266_RTOS_SDK/components/esp_ringbuf/ringbuf.c:336-372 | hands out exactly the oldest queued piece, by address, length and split mark; it stays in place and is out from then on |
| RingBuffer.Ring.Receive | esp8266/ESP8266_RTOS_SDK/components/esp_ringbuf/ringbuf.c:841-858 | one attempt to receive moves the head of the queue to what was received, or leaves everything alone |
| RingBuffer.Ring.ReceiveSplit | esp8266/ESP8266_RTOS_SDK/components/esp_ringbuf/ringbuf.c:570-596 | both parts together are exactly the oldest item, neither is empty, the second lies below the first, and exactly they move from the queue to what was received |
| RingBuffer.Ring.FreeFirst | esp8266/ESP8266_RTOS_SDK/components/esp_ringbuf/ringbuf.c:435-450 | one turn of the loop drops exactly the first part, which was returned or a dummy |
| RingBuffer.Ring.ReadHeader | esp8266/ESP8266_RTOS_SDK/components/esp_ringbuf/ringbuf.c:336-353 | the header read is that of the oldest queued piece, behind a dummy if there is one |
| RingBuffer.Ring.AdvanceFree | esp8266/ESP8266_RTOS_SDK/components/esp_ringbuf/ringbuf.c:433-451 | the reclaim loop terminates and frees exactly the returned parts and dummies before the oldest one still out |
| RingBuffer.Ring.ReturnItem | esp8266/ESP8266_RTOS_SDK/components/esp_ringbuf/ringbuf.c:412-462 | in any order, a return gives back exactly its item, moves the free pointer to the oldest item still out or to the read pointer, and keeps the queue; when a full, wholly received buffer still holds another item, the pointers say "empty" although items are out |
| RingLayout.AlignUp | esp8266/ESP8266_RTOS_SDK/components/esp_ringbuf/ringbuf.c:24-24 | rounding up to the alignment: the least aligned number not below |
| RingLayout.DecodeEncodeHeader | esp8266/ESP8266_RTOS_SDK/components/esp_ringbuf/ringbuf.c:33-43 | a header is read back as it was written |
| RingSteps.SendValid | esp8266/ESP8266_RTOS_SDK/components/esp_ringbuf/ringbuf.c:205-292 | a send keeps the invariant, leaves what is out alone, and the items in the queue are the old ones and the new one |
| RingSteps.HeadRoom | esp8266/ESP8266_RTOS_SDK/components/esp_ringbuf/ringbuf.c:160-186 | what the fit check accepts leaves room at the head for the second piece, for every admissible length |
| RingSteps.FirstRoom | esp8266/ESP8266_RTOS_SDK/components/esp_ringbuf/ringbuf.c:251-272 | the first piece of a divided item is non-empty and shorter than the item, so the second is not empty |
| RingSteps.HalfFits | esp8266/ESP8266_RTOS_SDK/components/esp_ringbuf/ringbuf.c:687-692 | the maximal item size: an empty buffer takes such an item wherever its pointers are |
| RingSteps.NextPos | esp8266/ESP8266_RTOS_SDK/components/esp_ringbuf/ringbuf.c:366-370 | the code's next address after a part is where the next part, or the write pointer, is |
| RingSteps.PartsDisjoint | esp8266/ESP8266_RTOS_SDK/components/esp_ringbuf/ringbuf.c:205-292 | no two parts share a byte |
| RingSteps.PartOutsideRoom | esp8266/ESP8266_RTOS_SDK/components/esp_ringbuf/ringbuf.c:160-186 | no part lies in the space that a fitting item is written to |
| RingSteps.JoinedAppend | esp8266/ESP8266_RTOS_SDK/components/esp_ringbuf/ringbuf.c:242-292 | the items a list of pieces makes up, piece lists behind whole items |
| RingReturn.TakeValid | esp8266/ESP8266_RTOS_SDK/components/esp_ringbuf/ringbuf.c:336-372 | a receive takes the oldest piece and keeps the invariant |
| RingReturn.PopStep | esp8266/ESP8266_RTOS_SDK/components/esp_ringbuf/ringbuf.c:435-451 | one turn of the reclaim loop drops a part that is not out, and moves neither the queue, the read pointer nor what is out |
| RingReturn.ReclaimValid | esp8266/ESP8266_RTOS_SDK/components/esp_ringbuf/ringbuf.c:433-451 | after the reclaim loop the invariant holds again and the free pointer is at the oldest item still out |
| RingReturn.ReturnValid | esp8266/ESP8266_RTOS_SDK/components/esp_ringbuf/ringbuf.c:412-462 | a safe return takes exactly its item off what is out |
| RingReturn.FreeIsRead | esp8266/ESP8266_RTOS_SDK/components/esp_ringbuf/ringbuf.c:435-435 | the free pointer meets the read pointer when nothing is before it, or the buffer is full and wholly received |
| RingReturn.EmptyPointersHoldNothing | esp8266/ESP8266_RTOS_SDK/components/esp_ringbuf/ringbuf.c:457-459 | equal pointers without the full flag fit no layout that holds anything |
| RingMemory.PushStored | esp8266/ESP8266_RTOS_SDK/components/esp_ringbuf/ringbuf.c:222-233 | writing a new part changes no byte of any part in the buffer |
| RingMemory.HeaderStored | esp8266/ESP8266_RTOS_SDK/components/esp_ringbuf/ringbuf.c:424-425 | marking a header changes no byte of any other part |
| RingMemory.OutIntact | esp8266/ESP8266_RTOS_SDK/components/esp_ringbuf/ringbuf.c:412-462 | every item that is out is still in the store, byte for byte, at its address |
| RingMemory.TailFollows | esp8266/ESP8266_RTOS_SDK/components/esp_ringbuf/ringbuf.c:582-586 | behind a first half the next piece is the second half, below it |
| RingReports.NoSplitReportExact | esp8266/ESP8266_RTOS_SDK/components/esp_ringbuf/ringbuf.c:477-505 | where the gap before the free pointer holds a header, a size is accepted exactly when it is at most the report |
| RingReports.ShortGapReport | esp8266/ESP8266_RTOS_SDK/components/esp_ringbuf/ringbuf.c:484-503 | where it does not, the maximal size is reported and nothing fits |
| RingReports.NoSplitReportExactIff | esp8266/ESP8266_RTOS_SDK/components/esp_ringbuf/ringbuf.c:477-505 | so the report is exact for all sizes if and only if there is no such gap |
| RingReports.NoSplitReportNotExact | esp8266/ESP8266_RTOS_SDK/components/esp_ringbuf/ringbuf.c:498-503 | a reachable state with a gap of 4 bytes in which 24 are reported |
| RingReports.GapOfFourReached | esp8266/ESP8266_RTOS_SDK/components/esp_ringbuf/ringbuf.c:205-240 | two sends, a receive, its return and two sends lead to that state |
| RingReports.SplitReportKept | esp8266/ESP8266_RTOS_SDK/components/esp_ringbuf/ringbuf.c:507-534 | where the size before the clamp is not negative, every size up to the report is accepted |
| RingReports.SplitReportExact | esp8266/ESP8266_RTOS_SDK/components/esp_ringbuf/ringbuf.c:507-534 | where that size is not negative the report is exact but for the second header it counts: the sizes accepted are those up to the report, and up to 8 less the free bytes at the head more, if these do not hold a header |
| RingReports.SplitReportKeptIff | esp8266/ESP8266_RTOS_SDK/components/esp_ringbuf/ringbuf.c:507-534 | every size up to the report is accepted if and only if the buffer is full, that size is not negative, or the maximal item fits behind the write pointer |
| RingReports.SplitReportNotKept | esp8266/ESP8266_RTOS_SDK/components/esp_ringbuf/ringbuf.c:519-532 | after one send into an empty store of 32 bytes nothing fits, and 16 are reported |
| RingReports.IdleTakesAnything | esp8266/ESP8266_RTOS_SDK/components/esp_ringbuf/ringbuf.c:687-702 | with nothing unread and nothing out every size fits, wherever the pointers are |
| RingReports.ReturnSafeIff | esp8266/ESP8266_RTOS_SDK/components/esp_ringbuf/ringbuf.c:453-461 | a return keeps the other items exactly when the buffer was not full and wholly received, or held only the returned item |
| RingReports.FullyReceivedBufferLosesItem | esp8266/ESP8266_RTOS_SDK/components/esp_ringbuf/ringbuf.c:457-459 | two sends, two receives and one return of the second item: the next send is accepted and writes over the first |
| ByteRing.CircularAppend | esp8266/ESP8266_RTOS_SDK/components/esp_ringbuf/ringbuf.c:294-322 | a piece written behind the stream extends it and changes no byte of it |
| ByteRing.ByteBuffer.constructor | esp8266/ESP8266_RTOS_SDK/components/esp_ringbuf/ringbuf.c:703-711 | a byte buffer starts empty |
| ByteRing.ByteBuffer.GetFreeSize | esp8266/ESP8266_RTOS_SDK/components/esp_ringbuf/ringbuf.c:143-158 | free, held and waiting bytes add up to the size of the store |
| ByteRing.ByteBuffer.GetCurMaxSize | esp8266/ESP8266_RTOS_SDK/components/esp_ringbuf/ringbuf.c:536-553 | a length fits exactly when it is at most the report |
| ByteRing.ByteBuffer.CopyItem | esp8266/ESP8266_RTOS_SDK/components/esp_ringbuf/ringbuf.c:294-322 | the stream grows by exactly the bytes sent, around the end of the store if need be |
| ByteRing.ByteBuffer.Send | esp8266/ESP8266_RTOS_SDK/components/esp_ringbuf/ringbuf.c:744-800 | accepted exactly when the bytes fit |
| ByteRing.ByteBuffer.CheckItemAvail | esp8266/ESP8266_RTOS_SDK/components/esp_ringbuf/ringbuf.c:324-334 | true exactly when bytes wait and no stretch is held |
| ByteRing.ByteBuffer.GetItem | esp8266/ESP8266_RTOS_SDK/components/esp_ringbuf/ringbuf.c:374-410 | hands out the oldest bytes, as many as lie in one stretch and the limit allows |
| ByteRing.ByteBuffer.HeldIntact | esp8266/ESP8266_RTOS_SDK/components/esp_ringbuf/ringbuf.c:374-410 | the held stretch is in place until it is returned |
| ByteRing.ByteBuffer.ReturnItem | esp8266/ESP8266_RTOS_SDK/components/esp_ringbuf/ringbuf.c:464-475 | drops exactly the held stretch |
| RingSemaphore.StepAwake | esp8266/ESP8266_RTOS_SDK/components/esp_ringbuf/ringbuf.c:555-612 | every step of a sender or receiver keeps: unread items mean a token, a holder of one, or a sender about to give one |
| RingSemaphore.NoLostWakeUp | esp8266/ESP8266_RTOS_SDK/components/esp_ringbuf/ringbuf.c:555-612 | the same after every interleaving of any number of tasks |
| RingSemaphore.QuiescentTokenSet | esp8266/ESP8266_RTOS_SDK/components/esp_ringbuf/ringbuf.c:757-799 | when all tasks are outside and items wait, the token is there |
| MdnsName.Find | esp8266/ESP8266_RTOS_SDK/components/mdns/mdns.c:376-412 | the search returns a position below the index whose bytes begin with the label and whose name, read on in the whole buffer, is the one wanted |
| MdnsName.AppendString | esp8266/ESP8266_RTOS_SDK/components/mdns/mdns.c:347-357 | a label is written whole behind its length or not at all, inside the packet, and never more is reported than was written |
| MdnsName.AppendFqdn | esp8266/ESP8266_RTOS_SDK/components/mdns/mdns.c:370-430 | writing stays inside the packet and never reports more than was written |
| MdnsPacket.Packet.AppendU8 | esp8266/ESP8266_RTOS_SDK/components/mdns/mdns.c:246-254 | one byte behind the written ones, or nothing in a full packet |
| MdnsPacket.Packet.AppendU16 | esp8266/ESP8266_RTOS_SDK/components/mdns/mdns.c:265-273 | two bytes, most significant first, or nothing |
| MdnsPacket.Packet.AppendText | esp8266/ESP8266_RTOS_SDK/components/mdns/mdns.c:347-357 | in place, what `AppendString` does to the written bytes |
| MdnsPacket.Packet.ReadFqdn | esp8266/ESP8266_RTOS_SDK/components/mdns/mdns.c:176-219 | the reader's loop and recursion compute `Read` over the whole buffer, which knows no index, and terminate: every pointer leads below its segment |
| MdnsPacket.Packet.Search | esp8266/ESP8266_RTOS_SDK/components/mdns/mdns.c:376-412 | the loop over the candidates below the index computes `Find` |
| MdnsPacket.Packet.AppendName | esp8266/ESP8266_RTOS_SDK/components/mdns/mdns.c:370-430 | in place, what `AppendFqdn` does to the written bytes in front of the rest of the buffer, which stays as it was |
| MdnsNameProof.ReadIsDecode | esp8266/ESP8266_RTOS_SDK/components/mdns/mdns.c:176-219 | what a name reads as depends only on its labels and pointers, read off independently of the slots |
| MdnsNameProof.DecodeStable | esp8266/ESP8266_RTOS_SDK/components/mdns/mdns.c:176-219 | a readable name has the same labels in every longer packet |
| MdnsNameProof.EarlierNamesKept | esp8266/ESP8266_RTOS_SDK/components/mdns/mdns.c:370-430 | every earlier name still reads the same after anything is appended |
| MdnsNameProof.OpenUnreadable | esp8266/ESP8266_RTOS_SDK/components/mdns/mdns.c:176-219 | the written bytes of a name without its end cannot be read on their own |
| MdnsNameProof.FoundFills | esp8266/ESP8266_RTOS_SDK/components/mdns/mdns.c:388-412 | a match found on its own reads as the same labels behind labels written before it |
| MdnsNameRoom.FailureLeaves | esp8266/ESP8266_RTOS_SDK/components/mdns/mdns.c:417-423 | a failure behind some labels leaves exactly them written out and reports their length |
| MdnsNameRoom.PointerLeaves | esp8266/ESP8266_RTOS_SDK/components/mdns/mdns.c:417-429 | a match behind some labels leaves exactly them written out and a pointer to the match, and reports the length of both |
| MdnsNameRoom.LastStep | esp8266/ESP8266_RTOS_SDK/components/mdns/mdns.c:370-430 | where the writer ends: stuck, at a pointer, or behind the terminator |
| MdnsNameRoom.FinishedIff | esp8266/ESP8266_RTOS_SDK/components/mdns/mdns.c:370-430 | the name is finished exactly when the writer does not get stuck, before or behind any label it writes out |
| MdnsNameRoom.ErrorReportsLengthIff | esp8266/ESP8266_RTOS_SDK/components/mdns/mdns.c:360-430 | an error reports a positive length exactly when the writer gets stuck behind a label it has written out |
| MdnsNameRoom.ZeroReportedIff | esp8266/ESP8266_RTOS_SDK/components/mdns/mdns.c:360-430 | 0 is reported exactly when the writer gets stuck before the first label |
| MdnsNameRoom.RoomSuffices | esp8266/ESP8266_RTOS_SDK/components/mdns/mdns.c:370-430 | room for the whole name and readable candidates suffice for every append to succeed |
| MdnsNameRoom.RoundTripIff | esp8266/ESP8266_RTOS_SDK/components/mdns/mdns.c:370-430 | for every packet and whatever lies behind it, the name reads back if and only if the writer does not get stuck and the pointer it writes, if any, leads below the name to the rest of it |
| MdnsNameRoom.PointerReadsBack | esp8266/ESP8266_RTOS_SDK/components/mdns/mdns.c:426-429 | a name that ends in a pointer reads back exactly when the pointer leads to the rest of it |
| MdnsNameRoom.TerminatedReadsBack | esp8266/ESP8266_RTOS_SDK/components/mdns/mdns.c:370-376 | a name that ends in the terminator reads back |
| MdnsNameRoom.EarlierNamesStay | esp8266/ESP8266_RTOS_SDK/components/mdns/mdns.c:370-430 | finished or not, every earlier name reads as before |
| MdnsNameLabels.RoundTripBelow | esp8266/ESP8266_RTOS_SDK/components/mdns/mdns.c:370-430 | where every nested append succeeds and matches below the name end in the packet, the name reads back if and only if no search finds a match at or behind its beginning |
| MdnsNameLabels.KnownNameIsPointer | esp8266/ESP8266_RTOS_SDK/components/mdns/mdns.c:376-429 | a name that is in the packet already is written as two bytes that point to the first place that reads as it |
| MdnsNameLabels.FindTells | esp8266/ESP8266_RTOS_SDK/components/mdns/mdns.c:376-412 | before the place where the search ends every candidate reads as another name, and it fails only at one that cannot be read |
| MdnsNameForms.WrittenReads | esp8266/ESP8266_RTOS_SDK/components/mdns/mdns.c:176-219 | a written name is read as its labels one after the other, and ends where it was written |
| MdnsNameForms.DottedInstanceReads | esp8266/ESP8266_RTOS_SDK/components/mdns/mdns.c:189-199 | labels behind the first that are neither services nor domains are read as part of the instance name, with dots, up to the size of its slot, and the services follow |
| MdnsNameForms.SubtypeReads | esp8266/ESP8266_RTOS_SDK/components/mdns/mdns.c:200-201 | a name with the label `_sub` reads as the name without it, marked as a subtype |
| MdnsNameForms.CaseIgnored | esp8266/ESP8266_RTOS_SDK/components/mdns/mdns.c:405-412 | letters are equal in either case |
| MdnsNameLabels.MatchEndsBehind | esp8266/ESP8266_RTOS_SDK/components/mdns/mdns.c:388-412 | a match below the name that ends behind the packet leads nowhere once the pointer is written |
| MdnsNameLabels.SelfPointerUnreadable | esp8266/ESP8266_RTOS_SDK/components/mdns/mdns.c:209-212 | a name that points to itself is finished, reports its length, and cannot be read |
| MdnsNameLabels.CandidateLies | esp8266/ESP8266_RTOS_SDK/components/mdns/mdns.c:376-389 | where no label holds the length of another as a byte, a candidate may begin in the packet as it was, or it is an equal label of this name |
| MdnsNameLabels.DifferentLabelsReadBack | esp8266/ESP8266_RTOS_SDK/components/mdns/mdns.c:370-430 | whatever lies behind: with room, a name whose labels are all different, and hold no label's length as a byte, reads back, in a packet in which every place that a label may have can be read |
| MdnsNameLabels.ReadsBackUnlessDoubled | esp8266/ESP8266_RTOS_SDK/components/mdns/mdns.c:370-430 | with zeros behind, and under the same conditions, a name that does not end in repeated labels reads back; if none of its labels can be in the packet yet, exactly then |
| MdnsNameLabels.LocalLocalPointsToItself | esp8266/ESP8266_RTOS_SDK/components/mdns/mdns.c:370-430 | the question of a host called "local": every append succeeds, 8 is reported, and the name cannot be read |
| MdnsNameLabels.RepeatedServiceReadsBack | esp8266/ESP8266_RTOS_SDK/components/mdns/mdns.c:405-412 | a repeated label inside a name is searched past, and the name reads back |
| MdnsNameRoom.UnfinishedUnreadable | esp8266/ESP8266_RTOS_SDK/components/mdns/mdns.c:370-430 | the packet that an unfinished name leaves holds no readable name there |
| MdnsNameProof.ReportedIsWritten | esp8266/ESP8266_RTOS_SDK/components/mdns/mdns.c:360-369 | the reported length is what was written, finished or not |
| MdnsNameProof.ZeroIffNothingWritten | esp8266/ESP8266_RTOS_SDK/components/mdns/mdns.c:360-369 | 0 is reported exactly when nothing was written |
| MdnsNameProof.UnfinishedNameReported | esp8266/ESP8266_RTOS_SDK/components/mdns/mdns.c:423-423 | a name that no longer fits after its first label is left unfinished and a positive length is reported |
| MdnsTxt.AppendTxtData | esp8266/ESP8266_RTOS_SDK/components/mdns/mdns.c:570-598 | the items are written as length-prefixed strings, and 0 is reported exactly when they do not fit |
| MdnsTxt.ItemsCount | esp8266/ESP8266_RTOS_SDK/components/mdns/mdns.c:2429-2451 | the loop computes the count, or fails on a string that runs over the end |
| MdnsTxt.ItemNameLen | esp8266/ESP8266_RTOS_SDK/components/mdns/mdns.c:2456-2468 | the loop finds the first equals sign |
| MdnsTxt.ResultCreate | esp8266/ESP8266_RTOS_SDK/components/mdns/mdns.c:2473-2549 | the loop fills an array of as many items as were counted, and computes the parsed list, or that it writes behind the array |
| MdnsTxt.EntriesParse | esp8266/ESP8266_RTOS_SDK/components/mdns/mdns.c:2473-2549 | entries in front of anything are counted and parsed one by one |
| MdnsTxt.TxtRoundTrip | esp8266/ESP8266_RTOS_SDK/components/mdns/mdns.c:2429-2549 | parsing the data of a record gives its items back in order, an empty value as absent, and the count is theirs |
| MdnsTxtNames.NamelessDropped | esp8266/ESP8266_RTOS_SDK/components/mdns/mdns.c:2473-2549 | of strings with an equals sign exactly those come back that have a name, in order, cut at the first equals sign; all are counted |
| MdnsTxtNames.NameLenIs | esp8266/ESP8266_RTOS_SDK/components/mdns/mdns.c:2456-2468 | a string that begins with an equals sign has no name, any other one ends its name at the first |
| MdnsTxtBounds.WalksAgreeIff | esp8266/ESP8266_RTOS_SDK/components/mdns/mdns.c:2429-2549 | the parser looks at the counted strings and nothing else exactly when each holds an equals sign, or is the last with nothing one byte behind it |
| MdnsTxtBounds.AlignedParses | esp8266/ESP8266_RTOS_SDK/components/mdns/mdns.c:2473-2549 | then it stays inside its array and the result is the counted strings that have a name, in order |
| MdnsTxtBounds.OverrunIff | esp8266/ESP8266_RTOS_SDK/components/mdns/mdns.c:2487-2510 | it writes behind the array exactly when it makes more items than strings were counted |
| MdnsTxtBounds.BareKeyCanOverrun | esp8266/ESP8266_RTOS_SDK/components/mdns/mdns.c:2487-2510 | behind any entries, any key without an equals sign leads to that with some continuation |
| MdnsTxtBounds.BareKeyOverruns | esp8266/ESP8266_RTOS_SDK/components/mdns/mdns.c:2487-2510 | the shortest such record that needs no terminator |
| MdnsTxtBounds.TerminatedKeyOverruns | esp8266/ESP8266_RTOS_SDK/components/mdns/mdns.c:2487-2510 | a record with one string and a terminator |
| MdnsTxtBounds.PartingWithoutOverrun | esp8266/ESP8266_RTOS_SDK/components/mdns/mdns.c:2473-2549 | walks that part need not end in an overrun |
| MdnsSrv.MemCompare | esp8266/ESP8266_RTOS_SDK/components/mdns/mdns.c:2083-2083 | the loop computes the first difference |
| MdnsSrv.CheckSrvCollision | esp8266/ESP8266_RTOS_SDK/components/mdns/mdns.c:2038-2090 | the winner, by the fields: lengths, priority, weight, port, host name, each greater one winning |
| MdnsSrv.GreaterWins | esp8266/ESP8266_RTOS_SDK/components/mdns/mdns.c:2038-2090 | in the domain "local" the longer host name wins, and for equal lengths the lexicographically greater of priority, weight, port and host name; only equal records are the same |
| MdnsSrv.LengthsDecide | esp8266/ESP8266_RTOS_SDK/components/mdns/mdns.c:2047-2059 | in any domain the longer data win, and of equally long ones those with the greater numbers, then those with the longer host name |
| MdnsSrv.VerdictsOppose | esp8266/ESP8266_RTOS_SDK/components/mdns/mdns.c:2038-2090 | two hosts in the domain "local" reach opposite verdicts, and "the same" exactly for equal records |
| MdnsSrv.WinsTransitive | esp8266/ESP8266_RTOS_SDK/components/mdns/mdns.c:2038-2090 | winning is transitive |
| MdnsSrv.OneWinner | esp8266/ESP8266_RTOS_SDK/components/mdns/mdns.c:2038-2090 | any set of different contenders has exactly one that wins against all others |
| MdnsQueue.InsertInv | esp8266/ESP8266_RTOS_SDK/components/mdns/mdns.c:1010-1028 | scheduling keeps the queue sorted and the handed-over packets first |
| MdnsQueue.FilterInv | esp8266/ESP8266_RTOS_SDK/components/mdns/mdns.c:1049-1069 | clearing packets strands no other packet, whatever stale actions it leaves |
| MdnsQueue.PushInv | esp8266/ESP8266_RTOS_SDK/components/mdns/mdns.c:3936-3966 | handing over a due packet keeps the order of pending actions |
| MdnsQueue.PopInv | esp8266/ESP8266_RTOS_SDK/components/mdns/mdns.c:3883-3895 | sending the head keeps the invariant, and packets go out in order and after they are due |
| MdnsQueue.SkipInv | esp8266/ESP8266_RTOS_SDK/components/mdns/mdns.c:3883-3895 | a stale transmit action can be dropped: no packet depends on it |
| MdnsResponder.Responder.constructor | esp8266/ESP8266_RTOS_SDK/components/mdns/mdns.c:4151-4221 | nothing is scheduled at the start |
| MdnsResponder.Responder.Tick | esp8266/ESP8266_RTOS_SDK/components/mdns/mdns.c:3936-3966 | time may pass between any two steps |
| MdnsResponder.Responder.Post | esp8266/ESP8266_RTOS_SDK/components/mdns/mdns.c:3910-3927 | other actions may be queued between any two steps |
| MdnsResponder.Responder.Schedule | esp8266/ESP8266_RTOS_SDK/components/mdns/mdns.c:1010-1028 | a packet goes exactly behind the last one not due later |
| MdnsResponder.Responder.ClearPcb | esp8266/ESP8266_RTOS_SDK/components/mdns/mdns.c:1049-1069 | exactly the packets of one PCB go |
| MdnsResponder.Responder.SchedulerRun | esp8266/ESP8266_RTOS_SDK/components/mdns/mdns.c:3936-3966 | the first packet not handed over is marked and its action queued when it is due; if nothing is, no such packet is due |
| MdnsResponder.Responder.InitProbe | esp8266/ESP8266_RTOS_SDK/components/mdns/mdns.c:1479-1570 | probing starts anew: exactly the packets of the PCB go and its one probe is scheduled; without a host name it runs at once, without memory the state stays |
| MdnsResponder.Responder.StartProbe | esp8266/ESP8266_RTOS_SDK/components/mdns/mdns.c:1514-1525 | the first probe is scheduled and the state is PROBE_1 |
| MdnsResponder.Responder.Answer | esp8266/ESP8266_RTOS_SDK/components/mdns/mdns.c:1281-1290 | a shared answer is scheduled with its delay, but none for a PCB that is off or probing; any other goes past the queue, and no state or history changes |
| MdnsResponder.Responder.Announce | esp8266/ESP8266_RTOS_SDK/components/mdns/mdns.c:1615-1654 | the state that follows for every state; announcing restarts an unfinished probing and never shortens it, and no other PCB sees a change |
| MdnsResponder.Responder.Disable | esp8266/ESP8266_RTOS_SDK/components/mdns/mdns.c:3057-3069 | the PCB is off and nothing of it stays scheduled |
| MdnsResponder.Responder.Detach | esp8266/ESP8266_RTOS_SDK/components/mdns/private_include/mdns_private.h:103-117 | exactly the emptied packets leave the queue |
| MdnsResponder.Responder.RemoveService | esp8266/ESP8266_RTOS_SDK/components/mdns/mdns.c:1923-2004 | emptied packets go, and a PCB leaves probing only to running |
| MdnsResponder.Responder.TxHandle | esp8266/ESP8266_RTOS_SDK/components/mdns/mdns.c:3610-3665 | the packet is sent unless the PCB is off, the next packet is scheduled 250 or 1000 ms later, the histories of probing and announcing grow by this packet, a PCB that stops announcing is running after three of them, and no other PCB sees a change |
| MdnsResponder.Responder.ServiceStep | esp8266/ESP8266_RTOS_SDK/components/mdns/mdns.c:3883-3895 | a transmit action takes exactly a handed-over head that it names off the queue and sends it, with the packet that follows scheduled in what is left of the queue, and otherwise changes nothing; state and history move for its PCB only; ANNOUNCE_1 is reached from probing only with three probes in the log since the restart, 250 ms apart, and one more for each failure; announcing is left only for RUNNING, with three of its packets in the log since ANNOUNCE_1 |
| MdnsResponder.Responder.ServiceAll | esp8266/ESP8266_RTOS_SDK/components/mdns/mdns.c:3883-3895 | once the pending actions are worked off, with or without memory, every packet that was handed over is in the log, unless its PCB is off, and no handed-over packet is left |
| MdnsResponder.ExactlyThreeProbes | esp8266/ESP8266_RTOS_SDK/components/mdns/mdns.c:3610-3665 | a PCB that starts to announce, with memory whenever it tried to, has exactly three packets in the log since the restart, all probes, 250 ms apart |
| MdnsResponder.ExactlyThreeAnnouncements | esp8266/ESP8266_RTOS_SDK/components/mdns/mdns.c:3644-3665 | a PCB that stops announcing by sending is running and has exactly three packets in the log since it began; with no shared answer in between they are announcements, each due exactly 1000 ms after the one before, and the first 250 ms after the last probe |
| MdnsAnnounce.SentStarts | esp8266/ESP8266_RTOS_SDK/components/mdns/mdns.c:3610-3665 | the number of packets of an announcing PCB in the log since it became ANNOUNCE_1 is that of its state, after every packet that is sent |
| MdnsAnnounce.AnnouncedGrows | esp8266/ESP8266_RTOS_SDK/components/mdns/mdns.c:3651-3656 | an announcement that was due when it should be keeps the others in step |
| MdnsAnnounce.InsertAnnounceInv | esp8266/ESP8266_RTOS_SDK/components/mdns/mdns.c:1010-1028 | scheduling keeps: of a PCB that announces alone one packet is scheduled, and it is due a second after the last one |
| MdnsAnnounce.FilterAnnounceInv | esp8266/ESP8266_RTOS_SDK/components/mdns/mdns.c:1049-1069 | dropping packets keeps the same |
| MdnsAnnounce.TailAnnounceInv | esp8266/ESP8266_RTOS_SDK/components/mdns/mdns.c:3883-3895 | the head of a PCB that announces alone is its announcement, due as it should be |
| MdnsAnnounce.RestartOk | esp8266/ESP8266_RTOS_SDK/components/mdns/mdns.c:1622-1642 | announcing starts anew with the packet that is scheduled |
| MdnsResponder.Responder.ScheduleNext | esp8266/ESP8266_RTOS_SDK/components/mdns/mdns.c:3625-3657 | the packet again, or the announcement behind the last probe, after 250 or 1000 ms |
| MdnsProbes.HistorySent | esp8266/ESP8266_RTOS_SDK/components/mdns/mdns.c:3610-3665 | the history of a probing PCB is what the log says about it since the restart |
| MdnsProbes.ProbeCounted | esp8266/ESP8266_RTOS_SDK/components/mdns/mdns.c:3623-3656 | a probe moves the state one further and keeps the spacing |
| MdnsProbes.InsertProbeInv | esp8266/ESP8266_RTOS_SDK/components/mdns/mdns.c:1479-1570 | scheduling keeps: at most one packet per probing PCB, and that is its probe |
| MdnsProbes.FilterProbeInv | esp8266/ESP8266_RTOS_SDK/components/mdns/mdns.c:1923-2004 | dropping packets keeps the same |
| MdnsProbes.TailProbeInv | esp8266/ESP8266_RTOS_SDK/components/mdns/mdns.c:3883-3895 | the head of a probing PCB is its one probe, due an interval after the last |
| EventLoop.HandlerInstancesAdd | esp8266/ESP8266_RTOS_SDK/components/esp_event/esp_event.c:162-193 | the loop replaces the argument of a known handler or appends |
| EventLoop.BaseNodeAddHandler | esp8266/ESP8266_RTOS_SDK/components/esp_event/esp_event.c:195-242 | the loop finds the id node or appends one |
| EventLoop.LoopNodeAddHandler | esp8266/ESP8266_RTOS_SDK/components/esp_event/esp_event.c:244-294 | the loop finds the last node of the base and splits when a general handler follows specific ones |
| EventLoop.HandlerInstancesRemove | esp8266/ESP8266_RTOS_SDK/components/esp_event/esp_event.c:296-309 | the first instance of the handler goes |
| EventLoop.BaseNodeRemoveHandler | esp8266/ESP8266_RTOS_SDK/components/esp_event/esp_event.c:312-335 | an emptied id node goes, and only then success is reported |
| EventLoop.LoopNodeRemoveHandler | esp8266/ESP8266_RTOS_SDK/components/esp_event/esp_event.c:337-360 | an emptied base node goes, and only then success is reported |
| EventLoop.RemoveFromNodes | esp8266/ESP8266_RTOS_SDK/components/esp_event/esp_event.c:731-741 | an emptied loop node goes and ends the loop |
| EventLoop.RunNode | esp8266/ESP8266_RTOS_SDK/components/esp_event/esp_event.c:534-562 | the nested loops run the handlers of one loop node in order |
| EventLoop.Loop.RegisterWith | esp8266/ESP8266_RTOS_SDK/components/esp_event/esp_event.c:648-710 | for every triple: where the list it goes to has the handler, its last registration gets the new argument in place, otherwise it goes to the end of the flat list, as every new triple does; an id without a base is refused |
| EventLoop.Loop.UnregisterWith | esp8266/ESP8266_RTOS_SDK/components/esp_event/esp_event.c:712-746 | a triple that is registered once leaves the flat list and nothing else does; of one that is registered several times those occurrences go that lie in each node up to the first that becomes empty |
| EventLoop.Loop.Run | esp8266/ESP8266_RTOS_SDK/components/esp_event/esp_event.c:534-562 | the handlers run for an event are the live matching registrations in registration order |
| EventRegistry.MatchingWithout | esp8266/ESP8266_RTOS_SDK/components/esp_event/esp_event.c:712-746 | taking a triple out and selecting for an event can be done in either order |
| EventRegistryProof.BasesAdded | esp8266/ESP8266_RTOS_SDK/components/esp_event/esp_event.c:244-294 | a registration comes last for the events it is meant for, whether or not a node is split |
| EventRegistryProof.RegisterAppends | esp8266/ESP8266_RTOS_SDK/components/esp_event/esp_event.c:648-710 | a registration that is new to the list it goes to comes last for the events it is meant for and nowhere else, also when an earlier node has the triple, and no node is empty |
| EventRegisterAgain.HandlersReplaced | esp8266/ESP8266_RTOS_SDK/components/esp_event/esp_event.c:172-193 | a handler that the list has already gets its new argument in place |
| EventRegisterAgain.RegisterReplaces | esp8266/ESP8266_RTOS_SDK/components/esp_event/esp_event.c:648-710 | where the list a registration goes to has the handler, every event that sees the triple gets the new argument in the last place where it has it, and no node is added |
| EventRegisterAgain.NewIsFresh | esp8266/ESP8266_RTOS_SDK/components/esp_event/esp_event.c:648-710 | a triple that is not registered is new to the list it goes to |
| EventHistory.AgainReplaces | esp8266/ESP8266_RTOS_SDK/components/esp_event/esp_event.c:648-710 | registering the same events and handler again at once only replaces the argument |
| EventHistory.AgainIff | esp8266/ESP8266_RTOS_SDK/components/esp_event/esp_event.c:648-710 | after any other registrations in between: for one event the argument is replaced if and only if none of them was for every event or for all events of the base, for every event if and only if all of them were for every event; otherwise the handler is registered twice |
| EventHistory.GeneralAgainReplaces | esp8266/ESP8266_RTOS_SDK/components/esp_event/esp_event.c:244-294 | for all events of a base, handlers for all events of other bases in between make no difference |
| EventHistory.GeneralAgainAppends | esp8266/ESP8266_RTOS_SDK/components/esp_event/esp_event.c:260-263 | a handler for every event, for one event of the base, or for one event of a base without a node in between does |
| EventHistory.NewBaseIff | esp8266/ESP8266_RTOS_SDK/components/esp_event/esp_event.c:252-271 | a new base node is made exactly when the base has none, or for a handler for all its events when its last node has id nodes or the last node of all is of another base and has some |
| EventHistory.TakesSame | esp8266/ESP8266_RTOS_SDK/components/esp_event/esp_event.c:648-710 | a registration for the same events finds the list that the one before has left |
| EventHistory.TakesOther | esp8266/ESP8266_RTOS_SDK/components/esp_event/esp_event.c:648-710 | what a registration for other events does to that list |
| EventLoop.Loop.RegisterTwice | esp8266/ESP8266_RTOS_SDK/components/esp_event/esp_event.c:648-710 | a new triple that is registered twice in a row is there once, with its last argument |
| EventRegistry.MatchingReplace | esp8266/ESP8266_RTOS_SDK/components/esp_event/esp_event.c:648-710 | replacing in the flat list and selecting for an event can be done in either order |
| EventRemoval.BasesDrop | esp8266/ESP8266_RTOS_SDK/components/esp_event/esp_event.c:337-360 | in a list of base nodes the triple goes from every node up to the first that becomes empty |
| EventRemoval.UnregisterDrops | esp8266/ESP8266_RTOS_SDK/components/esp_event/esp_event.c:712-746 | unregistering takes the same occurrences of its own triple out of what every event gets, and nothing else |
| EventRemoval.UnregisterWf | esp8266/ESP8266_RTOS_SDK/components/esp_event/esp_event.c:712-746 | no node is left empty |
| EventRemoval.FirstGoes | esp8266/ESP8266_RTOS_SDK/components/esp_event/esp_event.c:712-746 | of a triple that is registered several times the first occurrence goes |
| EventRemoval.UnregisterRemoves | esp8266/ESP8266_RTOS_SDK/components/esp_event/esp_event.c:712-746 | a triple that is registered once goes from what every event gets, and nothing else |
| EventRemoval.RunsTwiceThenOnce | esp8266/ESP8266_RTOS_SDK/components/esp_event/esp_event.c:648-746 | a handler, another one for every event, and the first again: it runs twice, and once after it is unregistered |
| EventRemoval.EmptiedNodeEndsRemoval | esp8266/ESP8266_RTOS_SDK/components/esp_event/esp_event.c:342-359 | an emptied base node ends the removal, and a base node that keeps a handler does not |
| EventRegistry.MatchingDrop | esp8266/ESP8266_RTOS_SDK/components/esp_event/esp_event.c:712-746 | dropping occurrences from the flat list and selecting for an event can be done in either order |
| EventRegistryProof.IdsReport | esp8266/ESP8266_RTOS_SDK/components/esp_event/esp_event.c:317-334 | for an id, success is reported exactly when the handler was alone in its id node |
| EventRegistryProof.BaseReport | esp8266/ESP8266_RTOS_SDK/components/esp_event/esp_event.c:312-335 | for any id, success is reported whenever the handler was there |
| EventRegistryProof.BasesReport | esp8266/ESP8266_RTOS_SDK/components/esp_event/esp_event.c:342-359 | success is reported exactly when some base node of the base held nothing else |
| EventRegistryProof.SharedNodeReportsFailure | esp8266/ESP8266_RTOS_SDK/components/esp_event/esp_event.c:317-334 | a handler that shares its id node goes, and failure is reported |
| EventRegistryProof.SharedBaseReportsSuccess | esp8266/ESP8266_RTOS_SDK/components/esp_event/esp_event.c:314-316 | a handler for any id that shares its base node goes, and success is reported |
| EventLoop.Registered | esp8266/ESP8266_RTOS_SDK/components/esp_event/esp_event.c:648-710 | the nested lists keep standing for the flat list |
| EventLoop.Unregistered | esp8266/ESP8266_RTOS_SDK/components/esp_event/esp_event.c:712-746 | the same after unregistering |
| OtaSelect.SelectsSlot | esp8266/ESP8266_RTOS_SDK/components/app_update/esp_ota_ops.c:543-557 | a number selects slot x exactly when it is congruent to x + 1 |
| OtaSelect.LeastByStep | esp8266/ESP8266_RTOS_SDK/components/app_update/esp_ota_ops.c:387-389 | stepping by the slot count finds the least such number not below the old one |
| OtaSelect.PowerLossKeepsChoice | esp8266/ESP8266_RTOS_SDK/components/app_update/esp_ota_ops.c:386-412 | whatever invalid bytes a half-done rewrite leaves, the choice and the highest number stand |
| OtaSelect.SwitchTakesEffect | esp8266/ESP8266_RTOS_SDK/components/app_update/esp_ota_ops.c:386-412 | once the record is written, its slot boots and its number is the highest |
| OtaSelect.FactoryInterrupted | esp8266/ESP8266_RTOS_SDK/components/spi_flash/src/spi_flash.c:703-733 | an interrupted return to factory boots a third choice exactly when the second record is valid, older and selects another slot |
| OtaSelect.FactoryInterruptedExample | esp8266/ESP8266_RTOS_SDK/components/spi_flash/src/spi_flash.c:703-733 | numbers 4 and 3 over three slots: slot 0 was chosen and slot 2 boots |
| OtaSelect.FactoryInterruptedReachable | esp8266/ESP8266_RTOS_SDK/components/spi_flash/src/spi_flash.c:703-733 | three plain switches from erased sectors and one interrupted return to factory get there |
| OtaSelect.TestApplicationNotBooted | esp8266/ESP8266_RTOS_SDK/components/app_update/esp_ota_ops.c:419-563 | with one OTA slot, setting the test application succeeds and boots the slot |
| OtaSelect.CountFromIs | esp8266/ESP8266_RTOS_SDK/components/app_update/esp_ota_ops.c:318-326 | the count is where the first gap is |
| OtaSelect.DefaultExists | esp8266/ESP8266_RTOS_SDK/components/app_update/esp_ota_ops.c:464-490 | with any application in the table the default is one of them |
| OtaSelect.DefaultIs | esp8266/ESP8266_RTOS_SDK/components/app_update/esp_ota_ops.c:464-490 | factory before every slot, a slot before the slots above it, and all of them before the test application |
| OtaSelect.OtaData.GetOtaPartitionCount | esp8266/ESP8266_RTOS_SDK/components/app_update/esp_ota_ops.c:318-326 | the loop counts the OTA partitions up to the first gap |
| OtaSelect.OtaData.RewriteOtaSeq | esp8266/ESP8266_RTOS_SDK/components/app_update/esp_ota_ops.c:300-316 | one sector is erased and written; a power loss leaves it torn and the other untouched |
| OtaSelect.OtaData.NextNumber | esp8266/ESP8266_RTOS_SDK/components/app_update/esp_ota_ops.c:386-389 | the loop finds the least number not below the old one with the wanted remainder |
| OtaSelect.OtaData.RewriteOtaData | esp8266/ESP8266_RTOS_SDK/components/app_update/esp_ota_ops.c:328-417 | a finished switch boots the slot under the next number; an interrupted one keeps choice and number; only the record not in force is touched; errors change nothing |
| OtaSelect.OtaData.FindDefault | esp8266/ESP8266_RTOS_SDK/components/app_update/esp_ota_ops.c:464-490 | factory, else the first OTA partition, else the test application |
| OtaSelect.OtaData.GetBootPartition | esp8266/ESP8266_RTOS_SDK/components/app_update/esp_ota_ops.c:492-563 | the slot in force, which is in the table, or the default |
| OtaSelect.OtaData.SetBootPartition | esp8266/ESP8266_RTOS_SDK/components/app_update/esp_ota_ops.c:419-462 | every outcome, with the power failing at any step |
| OtaSelect.OtaData.SetThenGet | esp8266/ESP8266_RTOS_SDK/components/app_update/esp_ota_ops.c:419-563 | for every application partition, when the switch succeeds, and that then the partition that was set boots exactly when it is not the test application |
| TaskScheduler.InsertDependencies | esp8266/ESP8266_RTOS_SDK/tools/idf.py:849-864 | exactly the dependencies not done are put in front, the last one first |
| TaskScheduler.IndexOf | esp8266/ESP8266_RTOS_SDK/tools/idf.py:868-868 | the first equal element |
| TaskScheduler.MoveOrdered | esp8266/ESP8266_RTOS_SDK/tools/idf.py:866-869 | the listed order dependencies not done move to the front, the last of them to the very front; the list keeps its elements, and nothing gets ahead of a requested action but them |
| TaskScheduler.PutBefore | esp8266/ESP8266_RTOS_SDK/tools/idf.py:841-869 | a task is ready exactly when its dependencies and listed order dependencies are done; otherwise the new front is not done and ranks lower |
| TaskScheduler.ExecuteTasks | esp8266/ESP8266_RTOS_SDK/tools/idf.py:833-883 | the loop terminates on every acyclic graph; the log has no duplicates, covers every requested action, lists every dependency before its dependent and every requested order dependency first; nothing runs that is not needed, and until a requested action has run nothing but what it or an earlier requested one needs or orders; requested tasks that need and order nothing run as listed, the first of each name |
| TaskScheduler.WaitingRuns | esp8266/ESP8266_RTOS_SDK/tools/idf.py:871-883 | running the front task keeps every requested action ahead of all that has nothing to do with it |
| TaskScheduler.WaitingStep | esp8266/ESP8266_RTOS_SDK/tools/idf.py:849-869 | inserting and moving keeps the same |
| TaskScheduler.MissingReverses | esp8266/ESP8266_RTOS_SDK/tools/idf.py:849-864 | what stands later in a list of dependencies is put in front of what stands earlier |
| TaskScheduler.DictHasLast | esp8266/ESP8266_RTOS_SDK/tools/idf.py:842-842 | of tasks of one name the last one is the one that is moved |
| TaskScheduler.GoodLogAppend | esp8266/ESP8266_RTOS_SDK/tools/idf.py:871-883 | running a ready task keeps the order of the log |
| TaskScheduler.RunStep | esp8266/ESP8266_RTOS_SDK/tools/idf.py:871-883 | taking the front task off the list keeps the invariant of the loop |
| TaskScheduler.RanExactlyWhatWasNeeded | esp8266/ESP8266_RTOS_SDK/tools/idf.py:833-883 | the actions that ran are the least set with the requested ones that is closed under dependencies |
| SplitArgv.SplitArgvInPlace | esp8266/ESP8266_RTOS_SDK/components/console/split_argv.c:34-120 | in place, the C strings behind `argv` are the tokens of the original text; argc is at most argv_size - 1, NULL follows, and nothing behind the text is written |
| SplitArgv.WriteOn | esp8266/ESP8266_RTOS_SDK/components/console/split_argv.c:104-109 | the write position never passes the read position, and what is unread is untouched |
| SplitArgv.LayoutAt | esp8266/ESP8266_RTOS_SDK/components/console/split_argv.c:50-55 | where each argument and its terminator lie in the buffer |
| SplitArgv.Finished | esp8266/ESP8266_RTOS_SDK/components/console/split_argv.c:110-119 | the last argument is terminated inside the buffer and counted |
| SplitArgvProof.TypedLineSplits | esp8266/ESP8266_RTOS_SDK/components/console/split_argv.c:34-120 | any quoting of at most argv_size - 1 arguments, bare or quoted, with any spacing, splits back into the arguments; a backslash before any other byte than quote, backslash and space goes with that byte |
| SplitArgvProof.OpenLineSplits | esp8266/ESP8266_RTOS_SDK/components/console/split_argv.c:34-120 | a line that ends inside quotes or behind a backslash ends its last argument there |
| SplitArgvProof.QuoteThenSplit | esp8266/ESP8266_RTOS_SDK/components/console/split_argv.c:34-120 | quoting any list, empty arguments included, joining with spaces and splitting gives the list back |
| SplitArgvProof.LimitCutsTheList | esp8266/ESP8266_RTOS_SDK/components/console/split_argv.c:43-43 | a smaller `argv` gets the first arguments of a larger one |
| SplitArgvProof.PieceRuns | esp8266/ESP8266_RTOS_SDK/components/console/split_argv.c:57-103 | one argument, however it is quoted, is read as its bytes |
| UartCodec.BytesEncode | client/wireless_uart_client.py:115-127 | the loop computes the text form |
| UartCodec.BytesDecode | client/wireless_uart_client.py:130-187 | the state machine computes the decoding, or fails where `fromhex` does |
| UartCodec.DecodeEncode | client/wireless_uart_client.py:115-187 | decoding what was encoded gives the bytes back |
| UartCodec.DecodeRaisesIff | client/wireless_uart_client.py:151-165 | decoding raises exactly when some escape, met outside any other, has two digits of which one is no hex digit |
| UartCodec.TakenWrongly | client/wireless_uart_client.py:151-165 | the bytes that are taken for hex digits and are not |
| UartCodec.NoWrongDigitNoRaise | client/wireless_uart_client.py:130-187 | where none of them occurs decoding never raises |
| UartCodec.ColonRaises | client/wireless_uart_client.py:151-165 | `:` after `\x` raises |
| UartCodec.OpenHistory | client/wireless_uart_client.py:130-187 | an open escape was opened by the bytes just before |
| UartCodec.EncodedIsPrintable | client/wireless_uart_client.py:110-127 | encoded bytes are printable |
| UartCodec.EncodeInjective | client/wireless_uart_client.py:115-127 | different values have different text forms |
| UartForms.PrintableStays | client/wireless_uart_client.py:115-127 | printable bytes but the backslash stay as they are |
| UartForms.EscapesWritten | client/wireless_uart_client.py:115-127 | anywhere in a value the backslash is doubled and any other byte becomes `\x` with two lower-case digits |
| UartForms.HexDigitsAre | client/wireless_uart_client.py:151-165 | the values of the digits in either case |
| UartForms.TextDecodes | client/wireless_uart_client.py:130-187 | any text is decoded unit by unit: plain bytes, the doubled backslash, hex escapes, and unknown escapes, which stay as they are but for an upper-case X; an escape that is open at the end is dropped |
| UartPacket.ChecksumSeesOneByte | client/wireless_uart_client.py:97-102 | changing one byte changes the checksum |
| UartPacket.XorBitIs | client/wireless_uart_client.py:97-102 | the checksum is exclusive or, bit by bit |
| UartPacket.FrameBytes | client/wireless_uart_client.py:90-95 | the frame byte for byte: the start symbol, the size in four bytes, low ones first, the data and the checksum |
| UartPacket.SplitIs | client/wireless_uart_client.py:207-213 | data are cut at the first equals sign, and are all key when it is missing or comes first |
| UartPacket.FrameDelivered | client/wireless_uart_client.py:190-222 | a frame behind noise without a start symbol is found with its key and value, whatever follows |
| UartPacket.ValueDelivered | client/wireless_uart_client.py:61-222 | encoding, framing, parsing and decoding returns key and value |
| UartPacket.PartialFrameWaits | client/wireless_uart_client.py:192-199 | no proper prefix of a frame delivers anything |
| UartPacket.FoundWasFramed | client/wireless_uart_client.py:190-222 | what the parser finds is the data of a frame in the stream, checksum included |
| UartPacket.CorruptFrameRejected | client/wireless_uart_client.py:200-217 | a frame with one changed data byte is not taken |
| UartPacket.Packet.constructor | client/wireless_uart_client.py:47-53 | a packet holds its key and value, framed |
| UartPacket.Packet.SetKeyValue | client/wireless_uart_client.py:61-70 | data, size and checksum are those of key and value |
| UartPacket.Packet.DoEncode | client/wireless_uart_client.py:72-79 | the value becomes its text form, the frame follows |
| UartPacket.Packet.DoDecode | client/wireless_uart_client.py:81-88 | the value becomes the decoded bytes, or stays when decoding fails |
| UartPacket.Packet.GetBytes | client/wireless_uart_client.py:90-95 | the frame with its end symbol |
| UartPacket.Packet.CalcChecksum | client/wireless_uart_client.py:97-102 | the loop folds exclusive or over the bytes |
| UartPacket.Packet.ParseBytes | client/wireless_uart_client.py:189-222 | the loop computes `Parse` |
| UartPacket.SendAndReceive | client/wireless_uart_client.py:61-222 | a receiver behind noise gets the key and value that were sent |

## Left out

- Ring buffer: the free-space semaphore, tick arithmetic, the variants for interrupts, queue sets and deprecated functions; the byte mode is modelled for one receiver at a time, as the code supports it.
- Ring buffer: addresses are offsets into the store, whose start counts as aligned; the alignment is any of 1, 2, 4 and 8; sizes are below 2^32.
- Ring buffer: the free-size reports are those for stores whose sizes an `int` holds.
- RingBuffer.Ring.constructor: item buffers of at least 16 bytes, below which no two headers fit and the maximal size underflows.
- RingBuffer.Ring.ReturnItem: after an unsafe return nothing is said about later operations, because the store no longer has a layout.
- RingSemaphore.NoLostWakeUp: tasks are the steps around the two critical sections; time-outs are returns to the outside.
- MdnsName.Find: a candidate that runs off the end of the 1460-byte buffer is none, or unreadable, where the code reads what lies behind the buffer; `name.invalid`, which the code leaves unset there, is not looked at.
- MdnsNameRoom.RoundTripIff: for labels of 1 to 63 ASCII bytes, none of them `_sub`, at most four, in the shapes that the callers build.
- MdnsNameLabels.RoundTripBelow: where matches below the name end in the packet; `MdnsNameLabels.MatchEndsBehind` is one that does not, and `MdnsNameRoom.RoundTripIff` covers it.
- MdnsNameLabels.ReadsBackUnlessDoubled: for labels none of which holds the length of another, or of itself, as a byte, and so is `DifferentLabelsReadBack`.
- MdnsTxt.AppendTxtData: the data of the record only, not its name, header and length field, and every allocation succeeds; the items are those whose strings fit a length byte.
- MdnsTxt.ResultCreate: what a write behind the array does is not modelled, only that it happens.
- MdnsTxtBounds.BareKeyCanOverrun: a string without `=` leads to an overrun with some continuation, not with every one; `MdnsTxtBounds.PartingWithoutOverrun` is one that does not.
- MdnsSrv.VerdictsOppose: for hosts that have a name, in the domain "local" on both sides.
- MdnsResponder.Responder.TxHandle: what a probe asks and an announcement says is not modelled, only that it is one; a failed announcement repeats the last probe, and is counted.
- MdnsResponder.Responder.RemoveService: which packets lose their content, and which PCBs have nothing left, are parameters.
- MdnsResponder.Responder.Answer: an answer that is not shared is sent past the queue and is not in the log.
- MdnsResponder.Responder.Schedule: time does not wrap around, and packets have identities that are not used again, where the code compares addresses.
- mDNS: sockets, interface events, duplicate interfaces, searches, A, AAAA and TXT collisions, console commands and failures to allocate elsewhere than for probes and announcements.
- EventLoop.Loop.Run: the handlers of one event; queueing of events, handlers that change the registry while they run, profiling and dumps are not part of this model.
- OtaSelect.OtaData.GetBootPartition: no record is valid where there is no OTA partition, since the code divides by their number.
- OtaSelect.OtaData.RewriteOtaSeq: flash operations fail only by loss of power.
- OtaSelect.OtaData.SetBootPartition: with the bounds of `RewriteOtaData`, and so is `SetThenGet`.
- OtaSelect.OtaData.RewriteOtaData: the highest number and the number of slots together stay below 2^32, and no valid record has the number 0, which the code never writes below that bound; a torn record fails its checksum; flash operations fail only by loss of power; image verification is a parameter.
- TaskScheduler.ExecuteTasks: action names are canonical and registered, and the graph is acyclic; options, callbacks and what a task does are left out.
- SplitArgv.SplitArgvInPlace: `argv_size` is at least 1, as the NULL at the end demands.
- UartPacket.Packet.GetBytes: data shorter than 2^32 bytes, as the length field demands; keys are byte strings that `decode()` accepts.
- UART client: the connection loops and the server, which carries a copy of the same packet class.
- The other tools and components of the repository: user interface, regular expressions, file handling, and wrappers over libraries whose code is not there.
