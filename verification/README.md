# MayteraOS kernel and loader: a verified model

This project models six parts of the MayteraOS source and proves what they promise, over whole runs and for all inputs:

1. **The HCI engine** (`kernel/bt/hci.c`): the ACL fragmenter and reassembler, the credit-gated command ring, the eleven-step bring-up chain, the connection table and the discovery cache.
2. **The ATT/GATT client** (`kernel/bt/gatt.c`): discovery against any conforming attribute table, CCCD mapping, subscription, and the one-request-at-a-time rule.
3. **Formatting and numbers** (`kernel/string.c`): the printf parser over a truncating buffer, and integer printers and parsers.
4. **Loader decisions** (`boot/uefi/bootloader.c`): image validation, segment placement, claimable memory, and display-mode selection, together with the kernel's report on it (`kernel/main.c`).
5. **The UART stall latch** (`kernel/serial.c`).
6. **The heartbeat's top-three selection** (`kernel/main.c`).

Check everything with `dafny verify dfyconfig.toml`.

## How it is built

Code that updates tables and buffers is modelled by classes and methods with loops over arrays; each such method is proved equal to a function on plain values (`View()`, `Contents`, `Baseline()`, …), and the theorems are about runs of those functions. Functions that only compute a specification carry no contract of their own; the lemmas about them are what the table below lists. Modules such as `AclWire`, `GattErrors`, `BringupReports`, `ConnectionHistory`, `FormatMeaning` and `SerialCalls` say again, in literal bytes and numbers and on the history of events alone, what those functions must come to, so that no constant or branch rests on the functions themselves.

| component | specification and methods | theorems |
|---|---|---|
| ACL | `Acl`, `Reassembly` | `AclTheorems`, `AclDeliveries`, `AclWire` |
| commands and bring-up | `CommandQueue`, `Bringup` | `BringupTheorems`, `BringupReports`, `BringupProgress` |
| connections | `Connections`, `ConnectionTable` | `ConnectionHistory`, `ConnectionNotes`, `ConnectionRecords` |
| discovery cache | `Discovery`, `DiscoveryCache` | `Discovery`, `DiscoveryOrder`, `Advertising`, `DiscoveryFields` |
| GATT | `GattSession`, `GattClient`, `GattPeer` | `GattDiscovery`, `GattBootMode`, `GattSubscribe`, `GattMissed`, `GattSequential`, `GattErrors`, `GattWire` |
| strings | `Numbers`, `NumberParsing`, `Format`, `FormatPrinter` | `NumberParsing`, `NumberText`, `Format`, `FormatNumbers`, `FormatMeaning`, `FormatText` |
| loader | `Elf`, `ElfFiles`, `Placement`, `ModeLine`, `ModeSelect`, `ModeLoader`, `ModeListing` | the same modules, `ElfLayout`, `ModeOutcome`, `ModeTokens` |
| UART, heartbeat | `Serial`, `TopConsumers` | the same modules, `SerialCalls` |

The environment enters as parameters. A transport or firmware answer is a function of the call number or of the mode asked for; a clock is the sequence of readings one call takes; va_list arguments are a function from position to value; bytes that lie after a file buffer are a function of the offset. Observer and sink callbacks are logs (`delivered`, `notes`, `changes`, `auths`, `fired`, `sent`) that the methods append to.

Integer widths are written out where they matter: the 16-bit wrap in `want = 4 + l2len`, 64-bit wrap-around in the number parsers, the ELF sums and the claimable-range end, and two's-complement negation and signed overflow where C leaves them undefined, except in field widths.

## Results that are false without a condition

Each is stated with its exact condition, with failing inputs where they help; a condition that is only sufficient is named as such.

- A PDU longer than the 1032-byte reassembly buffer is dropped, and disturbs nothing else on its link: `AclTheorems.RoundTripUnderInterleaving` is stated over every well-formed PDU and says which arrive.
- Up and down notifications of a handle alternate, in any run at all, if and only if no link lands on the handle while one is outstanding there: `ConnectionNotes.AlternatesExactlyWhen`. A controller that reuses neither live handles nor connected addresses is one case of it (`ConnectionNotes.NotificationsAlternate`); `ConnectionNotes.SecondLinkBreaksAlternation` is a run that fails, with links of either type, because the slot is found by address alone.
- Every slot records its own link (type, and encryption as last changed) at every moment of a run if and only if no event meets a guard read off the table: `ConnectionRecords.RecordsExactlyWhen`. The guard names three ways to go wrong, a mark inherited through the address, a handle held by another slot and a second slot missed by an Encryption Change; `SecondLinkInheritsEncryption`, `ReusedHandleMisrecords` and `OverflowMisrecords` are runs that do. The promise above rules all of them out (`ConnectionRecords.SlotsRecordTheirLinks`).
- The sequential rule holds throughout a run if and only if encryption never comes on while a subscription write is unanswered: `GattSequential.SequentialIffNeverRushed`.
- Every report with a CCCD is subscribed if and only if there is a protocol mode, or the first report has a CCCD, or nothing needs writing: `GattSubscribe.WritesAllExactlyWhen`. `GattMissed.SomeConversationMisses` reaches the failing session from a conforming table.
- Every chain command is queued unless it is refused by a full queue or a missing transport. Then the chain awaits the answer to a command that was never accepted, and stands still until an answer to it comes: `BringupProgress.AwaitedIsQueued`, `BringupProgress.RefusalStalls`, reached by fifteen commands of other users in `BringupProgress.FullQueueStalls`.
- A signed conversion parses back if and only if the value is not the 64-bit minimum and zeros were not put before its minus sign: `FormatNumbers.SignedConversionParsesBackIff`.
- An image is well formed if and only if it is accepted and neither its header table's end nor a loadable segment's end wraps: `Elf.WellFormedIffAcceptedWithoutWrap`. `ElfFiles.TableFileIsAccepted` and `ElfFiles.SegmentFileIsAccepted` are a 64-byte and a 120-byte file that are accepted and malformed.
- The claimable check passes for a range if and only if every byte of it may be overwritten or rounding its end up to a page leaves 64 bits; so it is safe under every memory map exactly when that end does not wrap: `Placement.ClaimableExactlyWhen`, `Placement.CheckIsSafeExactlyWhen`. `Placement.LastPageEscapes` is a busy segment in the last page that is placed although no descriptor covers it.
- Mode selection is safe if and only if the firmware behaves on the sets that are tried: `ModeSelect.SafeExactlyWhen`. PRESENT is exactly what the listing sweep was answered (`ModeListing.PresentExactlyWhenSwept`); stable queries are enough for an applied size to be PRESENT (`ModeListing.AppliedIsPresent`), and some unstable firmware makes it fail (`ModeListing.UnstableFirmwareMisleads`).
- The UART latch remembers one port. It survives calls on other ports if and only if there is no hardware or each was dropped before the clock was calibrated: `Serial.LatchSurvivesIff`, `Serial.ProbedAgainIff`. A port that never drains is probed at most once in each backoff, in any run over any ports, if and only if no call on it comes inside its backoff after such a disturbance: `Serial.RestedExactlyWhen`.

Where comments and code disagree, the model follows the code: the mode-list comment in `kernel/main.c:6590-6595` calls PRESENT beside a status other than APPLIED a selection bug, but a size offered only without a linear framebuffer gives exactly that (`ModeListing.PresentYetRefusedExactlyWhen`); and `kernel/main.c:6457` gives the log line limit as 256 where `kernel/fs/bootlog.c:164` has 640.

## Model

| member | source | states |
|---|---|---|
| `Acl.ParsePacket` | kernel/bt/hci_defs.h:125-132 | The receiver reads back from a packet header exactly the handle, boundary flag and payload the sender put in |
| `Acl.Sender.SendAcl` | kernel/bt/hci.c:182-202 | The wire gains exactly the first n fragments of the PDU, all accepted; success is n = all of them, failure stops at the first refusal |
| `Acl.Sender.Fill` | kernel/bt/hci.c:189-196 | The static packet buffer holds the header and payload of one fragment byte for byte |
| `Reassembly.Reassembler.SlotFor` | kernel/bt/hci.c:700-710 | Finds the handle's slot or claims a free one; fails exactly when eight other handles hold all slots; no other link changes |
| `Reassembly.Reassembler.Gather` | kernel/bt/hci.c:723-749 | One fragment changes only its own link, delivers at most one PDU and leaves slots with distinct handles within the buffer |
| `Reassembly.Reassembler.Receive` | kernel/bt/hci.c:712-750 | Any packet, well formed or not, acts on the slot table as on a map from handles to progress |
| `Reassembly.Reassembler.Drop` | kernel/bt/hci.c:408-411 | A hang-up clears exactly the slots of its handle |
| `Reassembly.LinksUpdate` | kernel/bt/hci.c:57-63 | Writing one slot is one map update, and handles in use stay distinct |
| `AclTheorems.LinksAreIndependent` | kernel/bt/hci.c:700-750 | While at most eight links need a slot at a time, hang-ups freeing theirs, each link's progress and deliveries are those of its own packets alone, under every interleaving |
| `AclTheorems.ContinuationsComplete` | kernel/bt/hci.c:737-749 | From any gathered prefix the remaining continuations deliver the PDU once |
| `AclTheorems.StreamDeliversFitting` | kernel/bt/hci.c:182-202 | One link's stream of fragments and hang-ups delivers exactly the PDUs of at most 1032 bytes, in order |
| `AclTheorems.RoundTripUnderInterleaving` | kernel/bt/hci.c:182-202 | Any PDUs, packet sizes in range and interleaving that never needs more than eight slots at once: at any moment the sink has each link's fully received fitting PDUs once and in order, and beyond them only the next ones; at the end exactly those |
| `AclTheorems.FewHandlesAreRoomy` | kernel/bt/hci.c:700-710 | A run over at most eight handles never needs more than eight slots |
| `AclTheorems.GatheringHolds` | kernel/bt/hci.c:712-750 | After any history, gathered bytes are the payloads since one start fragment on that handle with no restart or hang-up between |
| `AclTheorems.DeliveriesAreExplained` | kernel/bt/hci.c:712-750 | For any history a delivered PDU is the announced prefix, in literal header bytes, of one start fragment and its continuations on the same handle, never from a stray continuation or across a hang-up |
| `AclDeliveries.DeliveredExactlyWhen` | kernel/bt/hci.c:712-750 | While at most eight links need a slot, after any history the next packet delivers a PDU if and only if one start and its continuations up to it hold the announced bytes for the first time and at most 1032 in all |
| `AclWire.FragmentBytes` | kernel/bt/hci.c:182-202 | The i-th packet has the twelve-bit handle, flag 2 for the first and 1 for the others, its length, and the i-th slice of the data |
| `AclWire.HeaderIsRead` | kernel/bt/hci.c:712-730 | A packet is read exactly when it is as long as it says; flags 0 and 2 start a PDU |
| `CommandQueue.PumpIsFifo` | kernel/bt/hci.c:153-162 | The pump keeps accepted = sent + pending and the credit account; afterwards the queue is empty, credits are zero or the transport refused |
| `CommandQueue.SubmitIsFifo` | kernel/bt/hci.c:164-177 | A submit is refused for room exactly when fifteen are pending and for want of a device exactly then; refusals change nothing |
| `CommandQueue.WillingPump` | kernel/bt/hci.c:153-162 | With a willing transport the oldest commands go out, as many as there are credits |
| `CommandQueue.RingPush` | kernel/bt/hci.c:164-177 | Writing at the tail of the circular array appends to its contents |
| `CommandQueue.RingPop` | kernel/bt/hci.c:153-162 | Moving the head, wrap-around included, removes the oldest element |
| `CommandQueue.Ring.Drain` | kernel/bt/hci.c:153-162 | The ring's loop is the pump on the queue it holds |
| `CommandQueue.Ring.SendCmd` | kernel/bt/hci.c:164-177 | The ring's submit is the submit on the queue it holds, with the same outcome |
| `Bringup.Hci.AdvanceChain` | kernel/bt/hci.c:217-295 | One answer moves the chain, the controller data and the ready flag as the chain function says |
| `Bringup.Hci.CmdComplete` | kernel/bt/hci.c:309-317 | Credits, chain step and pump, in that order |
| `Bringup.Hci.CmdStatus` | kernel/bt/hci.c:319-327 | As for a completion, advancing only on failure |
| `Bringup.Hci.StartBringup` | kernel/bt/hci.c:954-961 | Clears ready, gives one credit and submits the reset |
| `BringupTheorems.ReachedAllIff` | kernel/bt/hci.c:217-295 | Greedy chain matching reaches the end exactly when the chain is a subsequence of the answers |
| `BringupTheorems.RunFollowsChain` | kernel/bt/hci.c:217-295 | After any run the engine stands at the chain position its answers reach |
| `BringupTheorems.ReadyExactlyWhenChainAnswered` | kernel/bt/hci.c:207-327 | Over any run since start, ready if and only if answers to all eleven commands arrived in chain order |
| `BringupTheorems.StrayAnswerOnlyPumps` | kernel/bt/hci.c:309-327 | An answer to anything but the awaited command changes only credits and the queue |
| `BringupTheorems.RunKeepsFifo` | kernel/bt/hci.c:153-177 | Every run keeps accepted = sent + pending, sends within the credits granted, and the ACL packet size in [27, 1024]; SendsStayWithinReport says what is granted |
| `BringupReports.SendsStayWithinReport` | kernel/bt/hci.c:153-327 | In every run the packets sent since the last credit report, read off the events alone, and the credits left add up to exactly that report: byte 0 of a completion, byte 1 of a status, 1 at start |
| `BringupReports.PacketBytes` | kernel/bt/hci.c:164-177 | A command on the wire is its opcode, low byte first, its length and its parameters |
| `BringupReports.AnswersAreLearnt` | kernel/bt/hci.c:217-245 | After any run the address is the six bytes of the answer to Read BD_ADDR, and the packet length that of Read Buffer Size if in [27, 1024] |
| `BringupTheorems.ElevenAnswersMakeReady` | kernel/bt/hci.c:207-295 | With the queue to itself, a willing transport and a controller that answers, each answer sends the next chain packet byte-exact, and the eleventh makes it ready |
| `BringupProgress.AwaitedIsQueued` | kernel/bt/hci.c:207-327 | After any run with other users' commands, polls and stray answers in which no chain command was refused, the chain commands up to the awaited one were accepted in order |
| `BringupProgress.AwaitedReachesTheWire` | kernel/bt/hci.c:153-327 | Whatever else is queued before or between, fifteen more answers with a credit bring the awaited chain command and all before it to the wire, in order |
| `BringupProgress.RefusalStalls` | kernel/bt/hci.c:207-210 | A refused chain command still moves the chain on; until an answer to a command never accepted, only other users' packets are accepted and the controller is not ready |
| `BringupProgress.FullQueueStalls` | kernel/bt/hci.c:164-168 | Fifteen commands of other users before the reset is answered bring the chain to that stall, whatever credits the answer carries |
| `Connections.PeersStayDistinct` | kernel/bt/hci.c:121-137 | In every reachable state no two active slots share a peer |
| `ConnectionHistory.TableIsItsHistory` | kernel/bt/hci.c:345-413 | For every run: what is paged, the authentication requests, the encryption notices, and in every active slot the handle, peer, link type, role and peer address type, each read off the history of events |
| `ConnectionHistory.EventLayouts` | kernel/bt/hci.c:345-353 | Where the three link events carry status, handle, role, address type and address |
| `ConnectionNotes.AlternatesExactlyWhen` | kernel/bt/hci.c:345-413 | For every run whatever the controller does, notifications of a handle alternate starting with up if and only if no link lands on it while one is outstanding there |
| `ConnectionNotes.OutstandingIsLastUp` | kernel/bt/hci.c:145-148 | A link is outstanding on a handle exactly when its last notification was up |
| `ConnectionNotes.TableMatchesController` | kernel/bt/hci.c:345-413 | In every consistent run the table holds only live links, exactly the outstanding ones, and never doubles one |
| `ConnectionNotes.NotificationsAlternate` | kernel/bt/hci.c:345-413 | In every consistent run, table overflow included, notifications alternate and the last is up exactly while the link is held |
| `ConnectionNotes.SecondLinkBreaksAlternation` | kernel/bt/hci.c:133-137 | Three links to one address, of any types, the third on the first one's handle, announce that handle up twice |
| `ConnectionRecords.RecordsExactlyWhen` | kernel/bt/hci.c:345-413 | For every run whatever the controller does, all slots record their links at every moment if and only if no event meets the guard |
| `ConnectionRecords.SlotsRecordTheirLinks` | kernel/bt/hci.c:345-390 | In every consistent run the guard is never met, so each active slot is a live link under its address with the type it was opened with and the encryption the last change since then said |
| `ConnectionRecords.EncryptionRecordsExactlyWhen` | kernel/bt/hci.c:647-662 | An Encryption Change keeps every record right exactly when no second slot on its handle carries the other mark |
| `ConnectionRecords.SecondLinkInheritsEncryption` | kernel/bt/hci.c:354-365 | A second link to a connected, encrypted address leaves the table with a wrong record |
| `ConnectionRecords.ReusedHandleMisrecords` | kernel/bt/hci.c:354-360 | So does a handle opened for a classic and an LE link at two addresses, from the empty table |
| `ConnectionRecords.OverflowMisrecords` | kernel/bt/hci.c:355-356 | So does a link of the other type on a held handle that finds no room |
| `ConnectionTable.ConnTable.ConnComplete` | kernel/bt/hci.c:345-390 | A Connection Complete acts as specified on table, paging state and notifications, and requests authentication of the new link |
| `ConnectionTable.ConnTable.LeConnComplete` | kernel/bt/hci.c:495-515 | The same for an LE Connection Complete |
| `ConnectionTable.ConnTable.DisconnComplete` | kernel/bt/hci.c:392-413 | A Disconnection Complete frees the first slot with the handle and notifies down, whatever its status |
| `ConnectionTable.ConnTable.EncryptChange` | kernel/bt/hci.c:647-662 | An Encryption Change marks the first slot of its handle, if any, and reaches the encryption observers either way |
| `Discovery.ParseInvertsEncode` | kernel/bt/hci.c:417-457 | Parsing the encoding of any structures and any trailing zeros is folding over the structures |
| `Advertising.HidExactlyWhenAdvertised` | kernel/bt/hci.c:430-452 | A device becomes HID exactly when one of its structures lists a HID service or a HID appearance |
| `Advertising.LastNameIsKept` | kernel/bt/hci.c:426-433 | The name field shows the last name advertised, cut to 31 bytes and terminated |
| `DiscoveryFields.LastAppearanceIsKept` | kernel/bt/hci.c:443-450 | The last keyboard or mouse appearance advertised is kept, as 1 or 2 |
| `DiscoveryFields.OtherDataKeepsAppearance` | kernel/bt/hci.c:443-450 | Without one the appearance stays |
| `DiscoveryFields.LeReportSays` | kernel/bt/hci.c:478-483 | An LE report sets address type, advertising type and strength and nothing of the class |
| `DiscoveryFields.InquirySays` | kernel/bt/hci.c:531-540 | An inquiry sets the class, its two sentinels, and a strength that is not zero |
| `DiscoveryFields.ClassSays` | kernel/bt/hci.c:541-550 | On the bytes of the class: major class 5 is HID, bit 6 a keyboard before bit 7 a pointer; others say nothing |
| `Discovery.ParseKeepsNameTerminated` | kernel/bt/hci.c:417-457 | For arbitrary bytes the parser keeps the name terminated |
| `Discovery.ReportsRoundTrip` | kernel/bt/hci.c:459-493 | Decoding an encoded event gives back its reports |
| `Discovery.InquiryRoundTrip` | kernel/bt/hci.c:567-600 | Decoding the array-per-field inquiry results gives back each device's entry, in the layout with signal strengths and in the one without |
| `DiscoveryFields.ExtendedInquiryIsRead` | kernel/bt/hci.c:605-613 | Decoding an encoded extended inquiry result gives back address, class, strength and response data |
| `DiscoveryFields.NameIsTaken` | kernel/bt/hci.c:616-629 | A remote name reaches exactly the classic device of its address, cut and terminated |
| `DiscoveryFields.OtherNamesChangeNothing` | kernel/bt/hci.c:616-629 | A failed answer, or one for a device not cached, changes nothing |
| `Discovery.SeeKeepsInv` | kernel/bt/hci.c:531-565 | One sighting keeps the cache sound and fires the callback exactly when it first makes that device HID |
| `Discovery.CacheStaysSound` | kernel/bt/hci.c:79-97 | In every run: at most 24 devices, unique keys, terminated names, and one callback for exactly the devices known to be HID |
| `DiscoveryOrder.FirstSightedAreKept` | kernel/bt/hci.c:79-97 | The cache holds exactly the first 24 distinct keys sighted since the last clear, in order of first sighting |
| `Discovery.KnowledgeGrows` | kernel/bt/hci.c:459-631 | Between clears devices keep place and key, HID never falls back, callbacks are only added |
| `DiscoveryCache.ParseAdvData` | kernel/bt/hci.c:417-457 | The index loop is the recursive parse, and reads in bounds |
| `DiscoveryCache.Devices.Update` | kernel/bt/hci.c:86-95 | Find or add, update and call back, on the array, as specified on the sequence |
| `DiscoveryCache.Devices.OnAdvReport` | kernel/bt/hci.c:459-493 | The loop sees exactly the reports that fit, in order |
| `DiscoveryCache.Devices.OnInquiry` | kernel/bt/hci.c:569-600 | The same for inquiry results, with and without RSSI |
| `DiscoveryCache.Devices.OnExtInquiry` | kernel/bt/hci.c:605-613 | The same for an extended inquiry result |
| `GattClient.Client.OnGroupRsp` | kernel/bt/gatt.c:218-243 | The service handler acts on the session fields as specified on values |
| `GattClient.Client.OnTypeRsp` | kernel/bt/gatt.c:245-280 | The same for the characteristic handler and its parsing loop |
| `GattClient.Client.OnFindInfoRsp` | kernel/bt/gatt.c:282-307 | The same for the descriptor handler |
| `GattClient.Client.AssignCccds` | kernel/bt/gatt.c:162-170 | The two nested loops are the fold over CCCDs that gives each to its owner |
| `GattClient.Client.BeginEnable` | kernel/bt/gatt.c:173-193 | Enabling starts with the mode write, the first subscription, or nothing |
| `GattClient.Client.AdvanceEnable` | kernel/bt/gatt.c:195-213 | The next report with a CCCD is written, or the session becomes ready and attaches |
| `GattClient.Client.OnErrorRsp` | kernel/bt/gatt.c:320-350 | Errors end a phase, start pairing once, or fail the session |
| `GattClient.Client.AttInput` | kernel/bt/gatt.c:368-402 | Dispatch of every readable PDU, in the session state |
| `GattErrors.PairingStartsOnce` | kernel/bt/gatt.c:338-343 | In every run pairing is started exactly once for each error of code 5 or 15 that arrives when none has since encryption last took effect |
| `GattErrors.PairingErrorWaits` | kernel/bt/gatt.c:338-343 | Such an error leaves the state and everything sent alone |
| `GattErrors.FailsExactlyWhen` | kernel/bt/gatt.c:320-350 | In every run a session enters Failed exactly on an error of another code, an end of services without HID, or a last page without HID |
| `GattErrors.EncryptionRearms` | kernel/bt/gatt.c:423-432 | Encryption that comes on while enabling or failed re-arms pairing and leaves Failed; elsewhere it changes nothing |
| `GattErrors.ScanLeaves` | kernel/bt/gatt.c:218-243 | What a page of services leaves, entry by entry on its bytes |
| `GattWire.RequestBytes` | kernel/bt/gatt.c:118-158 | Every request the client makes, byte for byte |
| `GattWire.WriteBytes` | kernel/bt/gatt.c:173-191 | The bytes of the mode write and of a subscription |
| `GattWire.MtuIsAgreed` | kernel/bt/gatt.c:368-402 | The peer's MTU, at most 247, and service discovery from handle 1 |
| `GattWire.RequestsAreRefused` | kernel/bt/gatt.c:368-402 | A PDU without a handler is refused with code 6 exactly when it is a request |
| `GattWire.OthersChangeNothing` | kernel/bt/gatt.c:309-350 | Notifications, short responses, stray write responses and a late "attribute not found" change nothing |
| `GattPeer.FoldServicesLearns` | kernel/bt/gatt.c:218-243 | Any page of services leaves the HID range if it holds the HID service and the last end handle |
| `GattPeer.FoldCharsLearns` | kernel/bt/gatt.c:245-280 | Pages of characteristics accumulate the first eight notifying reports and the last mode handle |
| `GattPeer.ScanEncodedInfos` | kernel/bt/gatt.c:282-301 | Parsing encoded descriptors reads back the attributes |
| `GattPeer.ServicesConform` | kernel/bt/gatt.c:218-243 | The services of a conforming table are disjoint, ascending and hold its HID service if there is one |
| `GattDiscovery.OneAnswer` | kernel/bt/gatt.c:218-350 | Any answer the peer may give keeps the invariant and lowers the rank |
| `GattDiscovery.ConversationKeepsInv` | kernel/bt/gatt.c:218-350 | Every conversation keeps the invariant and is no longer than the rank |
| `GattDiscovery.PeerCanAnswer` | kernel/bt/gatt.c:131-150 | While discovery lasts the request is one a conforming peer can answer |
| `GattMissed.DiscoveryCanFinish` | kernel/bt/gatt.c:218-350 | From any point of a conversation some answers of a conforming peer finish discovery |
| `GattDiscovery.DiscoveryIsExact` | kernel/bt/gatt.c:131-350 | Against every conforming table, however pages are cut, discovery is bounded and ends failed exactly when there is no HID service, else with the exact range, reports, mode handle and CCCDs |
| `GattBootMode.BootModeExactlyWhen` | kernel/bt/gatt.c:173-182 | The reports describe the table's first eight notifying entries, kind and boot flag included, and boot mode is asked for exactly when one of them is a boot report |
| `GattSubscribe.MappingIsFirstBetween` | kernel/bt/gatt.c:162-170 | Each report gets the first collected CCCD between its value and the next report's, and keeps one it has |
| `GattSubscribe.EveryReportGetsItsOwn` | kernel/bt/gatt.c:160-170 | With foreign CCCDs present every report gets its own |
| `GattSubscribe.SubscribesInOrder` | kernel/bt/gatt.c:173-213 | After k write responses exactly the first k+1 expected writes are out; after all, ready and attached; if enabling does not begin, ready at once with nothing written |
| `GattSubscribe.WritesAllExactlyWhen` | kernel/bt/gatt.c:173-193 | All expected writes go out exactly when enabling begins or none is expected |
| `GattMissed.LateCccdIsMissed` | kernel/bt/gatt.c:183-191 | Every finished conversation with that peer ends ready with its second CCCD known and never written, whatever responses follow |
| `GattMissed.SomeConversationMisses` | kernel/bt/gatt.c:183-191 | A conforming peer and a finished conversation after which a known CCCD is left unwritten |
| `GattSubscribe.SubscribesToOwnCccds` | kernel/bt/gatt.c:282-318 | From the end of discovery on, the writes are the mode and each report's own CCCD in handle order, then ready |
| `GattSequential.SequentialIffNeverRushed` | kernel/bt/gatt.c:118-121 | At most one request outstanding throughout a run if and only if encryption never comes on during an unanswered write |
| `GattSequential.RushBreaksRule` | kernel/bt/gatt.c:423-432 | Every such encryption change puts a second request on the wire |
| `GattSequential.AttachedMeansSubscribed` | kernel/bt/gatt.c:195-213 | A ready, attached session ended its requests with exactly the expected writes, retries after pairing included |
| `Numbers.ValueOfDigits` | kernel/string.c:262-289 | Positional notation has the value of the number |
| `Numbers.DigitsLength` | kernel/string.c:538-598 | A number below b^n has at most n digits in a larger or equal base |
| `Numbers.Ultoa` | kernel/string.c:262-289 | After in-place reversal the buffer holds, as a C string, exactly the digits of the value; empty for a base outside 2 to 16 |
| `Numbers.Ltoa` | kernel/string.c:220-260 | The same with a minus sign in base 10 and the two's-complement pattern in other bases, for every 64-bit value |
| `NumberParsing.ParseUnsigned` | kernel/string.c:344-388 | Value and end position of the numeral, modulo 2^64, for any base including negative ones |
| `NumberParsing.ParseSigned` | kernel/string.c:292-342 | Value and end position of the signed numeral, in wrapping 64-bit arithmetic, for any base including negative ones |
| `NumberParsing.UnsignedRoundTrip` | kernel/string.c:262-388 | `strtoul` of `ultoa` is the value, consuming all, for every base 2 to 16 |
| `NumberParsing.SignedRoundTrip` | kernel/string.c:220-342 | `strtol` of base-ten `ltoa` is the value for every 64-bit value, consuming all |
| `NumberParsing.PatternRoundTrip` | kernel/string.c:220-342 | In other bases the printed 64-bit pattern of every value, the minimum included, reads back to it |
| `NumberText.UnsignedTextIsRead` | kernel/string.c:344-388 | For any blanks, optional plus, mark of the base, digits and stopping text: the digits' value modulo 2^64, and the end of the digits |
| `NumberText.SignedTextIsRead` | kernel/string.c:292-342 | The same with a minus allowed and the value's 64-bit two's complement |
| `Format.FormatConcatenates` | kernel/string.c:457-666 | Formatting a complete format followed by any other is the two outputs in order, the second starting at the arguments the first leaves |
| `Format.SpecExtends` | kernel/string.c:467-536 | A complete conversion parses the same whatever follows |
| `Format.SpecShifts` | kernel/string.c:467-536 | What precedes a conversion does not change how it parses |
| `FormatPrinter.DigitsBackwards` | kernel/string.c:538-598 | The digits end up in the scratch buffer, whose front is never passed |
| `FormatPrinter.HexBackwards` | kernel/string.c:600-615 | A pointer prints as 0x and exactly sixteen digits |
| `FormatPrinter.ConversionText` | kernel/string.c:538-636 | The unpadded text of every known conversion |
| `FormatPrinter.KvFormat` | kernel/string.c:457-666 | The sink is fed exactly the specified output and the arguments used depend only on the format |
| `FormatPrinter.BufSink.Put` | kernel/string.c:682-686 | The buffer keeps the first size - 1 characters fed and counts the rest |
| `FormatPrinter.VsnprintfDropped` | kernel/string.c:710-723 | The first min(L, size - 1) characters and a NUL; written + dropped = L; arguments consumed as without truncation |
| `FormatNumbers.PaddedLength` | kernel/string.c:652-664 | Output is as long as the larger of width and text |
| `FormatNumbers.RenderedLength` | kernel/string.c:652-664 | Every known conversion prints the larger of its width and its text |
| `FormatNumbers.UnsignedParsesBack` | kernel/string.c:652-664 | Padded digits parse back in every base, width and flag |
| `FormatNumbers.SignedParsesBackIff` | kernel/string.c:652-664 | A padded signed text parses back exactly when the value is not the minimum and no zeros precede the sign |
| `FormatNumbers.UnsignedConversionParsesBack` | kernel/string.c:538-664 | %u, %o and %x with any flags, width, precision and length parse back to the argument |
| `FormatNumbers.SignedConversionParsesBackIff` | kernel/string.c:538-664 | %d and %i with any flags, width, precision and length parse back exactly when the value is not the minimum and no zeros precede the sign |
| `FormatMeaning.ConversionPrints` | kernel/string.c:538-664 | Every known conversion, with any flags, width, precision and length, prints a text that says its argument (digits, sign, character, string cut to the precision, pointer), at one end of the width, with blanks or zeros in the rest |
| `FormatMeaning.BodySays` | kernel/string.c:538-636 | The unpadded text of each conversion, in terms of values and strings only |
| `FormatText.DirectiveIsRead` | kernel/string.c:467-536 | A conversion written out as flags, width, precision, length and letter is read as those parts |
| `FormatText.DirectivePrints` | kernel/string.c:459-664 | So the text of a directive decides what it prints and how many arguments it takes |
| `FormatText.OthersEcho` | kernel/string.c:632-648 | A doubled percent prints one; an unknown conversion prints itself |
| `FormatText.PlainTextPrintsItself` | kernel/string.c:459-466 | A format without a percent sign prints itself and takes no argument |
| `FormatText.PercentS` | kernel/string.c:615-622 | A bare %s prints the string, or (null) for a null pointer |
| `Serial.SerialPort.WriteLocked` | kernel/serial.c:210-297 | One character's fate, the latch and all counters, for any poll and clock readings |
| `SerialCalls.CallIsCounted` | kernel/serial.c:210-297 | Which counter takes the character, by the call's readings: suppressed while the latch or missing hardware silences it, emitted when a poll finds the port ready before a deadline test gives up, dropped otherwise |
| `SerialCalls.CallMovesLatch` | kernel/serial.c:245-296 | Where the call leaves the latch and the longest wait |
| `Serial.CharactersAreAccountedFor` | kernel/serial.c:210-297 | Emitted + dropped + suppressed grows by exactly the number of calls |
| `Serial.LatchHolds` | kernel/serial.c:245-296 | After any run over any ports, inside a port's backoff the latch is on it unless a call on another port disturbed it since, and then it is not |
| `Serial.LatchSurvivesIff` | kernel/serial.c:260-296 | After any calls on other ports a latch is unchanged if and only if there is no hardware or each call was dropped before calibration |
| `Serial.ProbedAgainIff` | kernel/serial.c:260-268 | Inside its backoff a latched port is probed again exactly when some call on another port reached the hardware and cleared or took over the latch |
| `Serial.FailedProbesAreRare` | kernel/serial.c:138-174 | In a guarded run over any ports, failed probes of the port are at least 502 ms apart, so a window of W microseconds holds at most W / 502000 + 1 |
| `Serial.RestedExactlyWhen` | kernel/serial.c:210-297 | A port that never drains has a full backoff between failed probes if and only if no call on it comes inside its backoff after a disturbance |
| `Serial.OnePortIsGuarded` | kernel/serial.c:210-297 | A run on one port is guarded |
| `Serial.SecondPortDefeatsLatch` | kernel/serial.c:260-268 | One call on another port, whether it succeeds or fails, lets a dead port be probed again inside its backoff |
| `TopConsumers.Heartbeat.Match` | kernel/main.c:149-157 | The delta against the first row with the same pid |
| `TopConsumers.ShiftIn` | kernel/main.c:165-170 | The shift loop keeps the three slots equal to the inserted list's head |
| `TopConsumers.KeepingThreeIsEnough` | kernel/main.c:165-170 | Keeping three at each step is the same as sorting all and keeping three |
| `TopConsumers.SortIsStable` | kernel/main.c:140-188 | The sort is a permutation ordered by delta, ties in snapshot order |
| `TopConsumers.CandidatesAreUsed` | kernel/main.c:149-164 | A row with a delta is a candidate exactly when it is not idle, an earlier row of its pid exists in the last snapshot, and the delta is the positive difference to the first such row |
| `TopConsumers.Heartbeat.Top` | kernel/main.c:140-188 | The slots lead the rows of this snapshot that are not idle and used ticks since the last, and the snapshot replaces the baseline |
| `TopConsumers.TopThreeOfStableSort` | kernel/main.c:140-188 | The slots hold the three non-idle rows with the largest positive differences to the last snapshot, ties in snapshot order; every other one comes after them |
| `Elf.KernelImageValid` | boot/uefi/bootloader.c:1765-1792 | Accepts exactly on the header fields, the table bound and every loadable segment's bounds, in 64-bit arithmetic |
| `ElfLayout.HeaderIsRead` | boot/uefi/bootloader.c:44-59 | The header of a file written in the ELF-64 layout is read back field by field |
| `ElfLayout.SegmentIsRead` | boot/uefi/bootloader.c:61-71 | So is every program header of its table |
| `Elf.AcceptanceIsWellFormedness` | boot/uefi/bootloader.c:1765-1792 | Where the sums do not wrap, accepted exactly when table and segment bytes lie inside the file |
| `Elf.WellFormedIffAcceptedWithoutWrap` | boot/uefi/bootloader.c:1765-1792 | An image is well formed if and only if it is accepted and neither the table's end nor a loadable segment's end wraps |
| `Elf.WrappedTableIsAccepted` | boot/uefi/bootloader.c:1774-1777 | Any image whose one-entry table starts at the top of the address space is accepted and malformed |
| `Elf.WrappedSegmentIsAccepted` | boot/uefi/bootloader.c:1784-1787 | Any image whose only segment wraps is accepted and malformed |
| `ElfFiles.TableFileIsAccepted` | boot/uefi/bootloader.c:1774-1777 | A 64-byte file with its header table outside it is accepted |
| `ElfFiles.SegmentFileIsAccepted` | boot/uefi/bootloader.c:1784-1787 | A 120-byte file with a segment outside it is accepted |
| `Elf.SegmentCheckFailsExactlyWhenWrapped` | boot/uefi/bootloader.c:1784-1787 | The segment check is wrong exactly when its end wraps to inside the file |
| `Elf.TruncationIsDetected` | boot/uefi/bootloader.c:1756-1792 | A truncation of a well-formed file is accepted exactly when it keeps the header table and all loadable bytes |
| `Elf.ChooseKernel` | boot/uefi/bootloader.c:1799-1834 | The primary if valid, else the backup if valid, else which error |
| `Placement.SegRangeIsClaimable` | boot/uefi/bootloader.c:1853-1888 | True exactly when the first descriptor covering each page up to the 64-bit rounded end is usable or loader memory; otherwise the first offending type |
| `Placement.ClaimableByKind` | boot/uefi/bootloader.c:858-876 | A page may be overwritten exactly when the first descriptor covering it is of firmware type 1, 2, 3, 4 or 7 |
| `Placement.ClaimableExactlyWhen` | boot/uefi/bootloader.c:1853-1888 | For each map the check passes exactly when the rounded end wraps or every byte of the range may be overwritten |
| `Placement.CheckIsSafeExactlyWhen` | boot/uefi/bootloader.c:1853-1888 | Passing the check means every byte may be overwritten, under every map, if and only if the rounded end does not wrap |
| `Placement.LastPageEscapes` | boot/uefi/bootloader.c:1856-1857 | A busy segment in the last page is not refused although no descriptor covers any of its bytes |
| `Placement.EmptyRange` | boot/uefi/bootloader.c:1853-1888 | An empty range is looked at only where its base lies inside a page |
| `Placement.RefusedExactlyWhen` | boot/uefi/bootloader.c:2094-2122 | A non-empty segment is refused exactly when it is busy, the map is known, its rounded end does not wrap and some byte may not be overwritten |
| `Placement.LastSegmentWins` | boot/uefi/bootloader.c:2128-2134 | An address holds what the last segment covering it links there, file byte or zero |
| `Placement.UncoveredIsUntouched` | boot/uefi/bootloader.c:2128-2134 | Memory no segment covers is unchanged |
| `Placement.DisjointSegmentsAreExact` | boot/uefi/bootloader.c:2073-2136 | Disjoint segments are all fully in place |
| `Placement.HullIsExact` | boot/uefi/bootloader.c:2086-2087 | The recorded range is the exact hull of the loaded segments |
| `Placement.Loader.LoadSegments` | boot/uefi/bootloader.c:2070-2145 | Refuses exactly when the check fails for a busy segment under a known map; otherwise places all segments, whose bytes were all claimable where such a segment's rounded end does not wrap, and records base and size |
| `Placement.AcceptedImagesLoad` | boot/uefi/bootloader.c:1765-1792 | An accepted image loads within the file and, with disjoint segments, exactly |
| `ModeLine.ModeselParse` | boot/uefi/bootloader.c:382-413 | The parsing loops read the line as specified, early limit exit included |
| `ModeLine.SizeExactlyWhenSpelt` | boot/uefi/bootloader.c:382-413 | A size is taken exactly when the line spells one: blanks, digits, cross, digits, terminator, both in 1..100000 |
| `ModeLine.IndexExactlyWhenSpelt` | boot/uefi/bootloader.c:382-413 | The same for a bare index |
| `ModeLine.SizeLineParses` | boot/uefi/bootloader.c:382-413 | Every decimal spelling of a size is read back |
| `ModeLine.PrintedSizeParses` | boot/uefi/bootloader.c:382-413 | Width and height printed in decimal around a cross are read back |
| `ModeSelect.SafeExactlyWhen` | boot/uefi/bootloader.c:427-709 | Recorded mode in effect, and the firmware's own unless applied and usable, exactly when the firmware behaves on the sets tried |
| `ModeSelect.SelectionIsSafe` | boot/uefi/bootloader.c:427-709 | Safe on every exit when failed sets change nothing and the firmware's mode can be restored |
| `ModeSelect.RefusedExactlyWhenNotOffered` | boot/uefi/bootloader.c:611-637 | With stable queries a size is refused exactly when no mode has it with a linear framebuffer |
| `ModeOutcome.TargetOrNone` | boot/uefi/bootloader.c:604-637 | Every request names exactly one mode or none |
| `ModeOutcome.StatusOfFile` | boot/uefi/bootloader.c:552-580 | Status 0 without a file, 5 for one that is unreadable or empty, and only then |
| `ModeOutcome.RefusedWithoutTarget` | boot/uefi/bootloader.c:596-637 | Status 2 for a text that does not parse, an index out of range and a size no mode has |
| `ModeOutcome.StatusOfTarget` | boot/uefi/bootloader.c:639-709 | What becomes of a named mode: 2 rejected, 1 on already or set and usable, 3 not set, 4 set back |
| `ModeOutcome.ListIsTheSweep` | boot/uefi/bootloader.c:501-535 | Each list entry holds what its mode answered, bit 0 for the current mode, bit 1 for no answer |
| `ModeOutcome.ListHoldsRequest` | boot/uefi/bootloader.c:582-594 | The list holds the request, all ones when no index was named |
| `ModeLoader.BootInfo.RecordStatus` | boot/uefi/bootloader.c:422-425 | Both copies of the status are written together |
| `ModeLoader.BootInfo.Enumerate` | boot/uefi/bootloader.c:501-535 | The blob lists every mode's answer with its flags |
| `ModeLoader.BootInfo.Search` | boot/uefi/bootloader.c:611-623 | The first linear match, or none |
| `ModeLoader.BootInfo.Commit` | boot/uefi/bootloader.c:639-709 | Verify, set, and go back if the result is unusable |
| `ModeLoader.BootInfo.SelectMode` | boot/uefi/bootloader.c:427-709 | On every exit status, display and recorded mode are the specified verdict, and the blob is the specified list with the same status |
| `ModeListing.FindRequested` | kernel/main.c:6596-6613 | The first listed mode of the requested size, or none |
| `ModeListing.PresentExactlyWhenSwept` | kernel/main.c:6596-6613 | A size is PRESENT exactly when the listing sweep was answered with it for some mode |
| `ModeListing.NotOfferedMeansRefused` | kernel/main.c:6590-6613 | With stable queries NOT OFFERED means the loader refused |
| `ModeListing.AppliedIsPresent` | kernel/main.c:6500-6613 | With stable queries an applied size is reported PRESENT, in a list that passes the kernel's checks |
| `ModeListing.PresentYetRefusedExactlyWhen` | kernel/main.c:6590-6613 | PRESENT beside a refusal exactly when the size exists only without a linear framebuffer |
| `ModeListing.UnstableFirmwareMisleads` | boot/uefi/bootloader.c:445-450 | For any request some unstable firmware makes an applied size read NOT OFFERED |
| `ModeListing.TokenLength` | kernel/main.c:6571-6581 | No token reaches the size of its buffer |
| `ModeTokens.TokenSays` | kernel/main.c:6571-6581 | The text of each entry: index, star if current, size, format unless 0 or 1 |
| `ModeListing.FillLine` | kernel/main.c:6566-6587 | A line holds whole tokens in order, broken only by a bound or the end |
| `ModeListing.PrintList` | kernel/main.c:6558-6588 | The printed lines together are every entry's token once, in index order, none cut |

## Left out

- GattClient.Client.OnGroupRsp: takes an entry size of at least 4 as a precondition, because the loop steps by the size the peer announces: zero never ends, and smaller sizes read past the response.
- GattClient.Client.OnTypeRsp: takes an entry size of at least 5 as a precondition, for the same reason.
- GattClient.Client.AttInput: takes both as a precondition of the two list responses.
- The multi-session table of `gatt.c`, HID notification dispatch and attachment internals: one session is modelled, attachment is a flag.
- Reports with the same value handle, or a first report above a later one: the CCCD claims assume ascending value handles, which ascending declarations give a conforming peer.
- `ev_conn_request`, scan, connect and name-request commands, and the Bluetooth state variable: thin submits and settings. Commands of other users appear as arbitrary submits.
- Disconnection Complete status is ignored by the model because `ev_disconn_complete` ignores it.
- A slot's buffer is modelled as the bytes gathered so far, not as a fixed array with leftovers behind them.
- Event fan-out to pairing observers, logging and the boot log file.
- FormatPrinter.KvFormat: field widths and precisions are unbounded naturals; a width with more digits than an int overflows in the source.
- The zero-padding of negative numbers is modelled as it is, but kept out of the round trip by the stated condition.
- The console ring, `kprintf` routing and the UART registers themselves.
- The loader's file, pool and page calls: their answers are parameters. That the file buffer itself is not overwritten by a placed segment is not modelled.
- The kernel's choice of backup image is modelled, its reporting through `diag_flags` is not.
- Segment headers are read at the loader's own 56-byte stride, so a larger `e_phentsize` only widens the bounds check, as in the source.
- Printed messages of the mode selector, and its count of unusual pixel formats, which only feed them.
- Names and percentages that `hb_top_consumers` prints after choosing the rows.
- HD Audio, PCI scanning, chime synthesis, kernel boot order and the shell.
