# EVSE firmware: verified model

A Dafny model of the EV charger firmware's stateful core and proofs about it. Imperative parts are
classes and loops proved against specification functions; what the firmware promises over whole runs is
proved about those functions. `dafny verify dfyconfig.toml` checks everything.

| files | component |
|---|---|
| SlaveFrame, SlaveDecoder, SlaveStream | frames of the master/slave serial link and the byte-at-a-time receiver |
| SlaveRequests, SlaveMaster, RelayCache | requests with bounded waiting for acknowledgements, and the relay command cache |
| OfflineStore, OfflineRuns | the offline-transaction queues in the key/value store |
| ProfileStore, ProfileRuns, ProfileChoice | the charging-profile array and the choice per connector |
| OcppCore, OcppRuns, LocalList | OCPP message ids and the local authorisation list |
| SlaveTransfer, SlaveArrivals, OtaTask, OtaRuns, OtaProgress | firmware update of slave and master |
| LogRing, LogUpload | rotating log files, and their upload while they are written |
| SwSerial, SwLine | the software UART, and its line with the edges that start the receiver |
| RelayBoard | relay, pilot and weld detection on the AC1 board |
| Basics, Numerals | shared notions, decimal printing |

## What the environment is

Each block of a FreeRTOS task between delays is one step, and a mutexed block is atomic. What happens in
a delay is a parameter: received bytes and other senders for the link, answers of server and slave for
the update, readings for the relay. The key/value store is a map whose missing keys are "not found".
`Decoder.Receive` requires a declared length of at most 1020, because the firmware writes past its
receive buffer beyond that; `Core.Send` requires the counter below 10^9, because larger ids overflow
their ten characters. The announced file length of a slave image is taken as the unsigned number the
firmware compares it as, and the HTTP client is taken never to return a negative count without raising
its error event, because the firmware would then send what lies behind its buffer. The receiver of the
software UART notices no edge while it is busy with a byte.

## Where the code falls short of its purpose

Each is kept as the code has it, with the exact condition under which the intended property holds.

- A declared frame length of 0 leaves the receiver deaf (`DeafIffZeroLength`).
- A relay command whose acknowledgement is lost leaves the cache stale, and a later command back to the
  cached state is reported as done without being sent; and any frame with the relay id acknowledges
  whatever command is waiting (`SuccessMeansSwitchedIff`, `CacheMirrorsSlaveIff`).
- A request that could not be printed keeps the Received of the one before it (`ReceivedTrustedIff`).
- Firmware acknowledgements carry no packet number, so a late one can hide the loss of the next packet
  (`AcknowledgedMeansReceivedIff`).
- An inverted software UART waits for the edge that the start bit does not make (`AllHeardIff`).
- The upload notes the current log file before it holds rotation back and holds it only for the first
  file, so a rotation in between, or too many later, puts new text in the place of what was kept when it
  began (`UploadContinuesIff`).
- Clearing a profile id removes it only if no two adjacent entries carry it
  (`ClearIsFilterIffNotAdjacent`); at 1000 entries a new profile is lost (`WriteStoresIffRoom`).
- Stack level 0 is never chosen (`SomethingChosenIff`), and a foreign TxProfile can hide the connector's
  own (`OwnProfileRespectedIff`).
- A differential local list stops at the slot whose number is the remaining capacity
  (`DifferentialStoresAllThatFitIff`).
- The update never lowers the slave's success flag, so a success frame decoded before or between the
  attempts passes a later failure off as success (`MasterAfterSlaveIff`); a board without a slave never reports that it is up to date
  (`AlreadyLatestIffSlave`).
- Update progress falls when a retry starts over (`ProgressFallsIff`).
- The reported pilot state can stay C or D while the relay is open (`PilotStateLagsIff`).

## Model

| member | source | states |
|---|---|---|
| SlaveFrame.Encode | main/slave.c:33-64 | the buffer an encoder builds, checksum loop included, is the frame: start bytes, length of everything after it, id, payload, and the 16-bit wrapping sum of all bytes before it |
| SlaveFrame.FrameLayout | main/slave.c:33-64 | what stands at every byte position for every encoder: 0x55 0xAA, the length of the rest, the id with 256 added for requests only, relay and state or the like at 6 and 7, the packet number at 6 to 9 and its data from 10, and the checksum at the end |
| SlaveMaster.RelayCommandBytes | main/slave.c:844-865 | a relay command is 0x55 0xAA 8 0 2 1, relay, state, 0 0 and the checksum |
| SlaveFrame.Checksum | main/slave.c:50-55 | the loop with its 16-bit accumulator yields the sum of the bytes modulo 65536 |
| SlaveDecoder.Decoder.Receive | main/slave.c:141-337 | one received byte moves the receiver's variables exactly as the abstract parser steps, reports a frame as delivered or rejected, raises only the flag of a valid frame's id, and sets errorMessage exactly on a bad checksum or unknown id |
| SlaveDecoder.Decoder.ReceiveBodyByte | main/slave.c:176-337 | storing, summing and the final comparison agree with the parser for every length up to the buffer, including the lengths 0 and 1 |
| SlaveDecoder.AcceptsMeans | main/slave.c:176-200 | a frame is valid if and only if the 16-bit sum of start bytes, length and content is its last two bytes, of which a body of one byte has only the high one |
| SlaveDecoder.FlagRaised | main/slave.c:191-323 | only the sixteen known ids have a flag, and a valid frame raises its own |
| SlaveStream.HarmlessIffIdle | main/slave.c:144-158 | noise leaves an idle receiver idle throughout if and only if no 0xAA directly follows a 0x55, counting one that arrived before |
| SlaveStream.AlteredBodyRejected | main/slave.c:189-332 | one altered byte of a frame's body or checksum always spoils the comparison |
| SlaveStream.StreamDecodes | main/slave.c:141-337 | from any idle state, for every list of frames with harmless noise between them and any of them altered in one byte, exactly the unaltered bodies are delivered unchanged and in order, the altered frames are rejected one by one, and the receiver ends idle |
| SlaveRequests.ErrorTellsLastFrame | main/slave.c:197-334 | after any such stream errorMessage is up if and only if its last frame was altered or has none of the sixteen ids |
| SlaveStream.IntactSegmentIsFrame | main/slave.c:394-421 | an undamaged segment of such a stream is noise and then exactly what an encoder writes |
| SlaveStream.ZeroLengthIsDeaf | main/slave.c:169-178 | after a declared length of 0 no byte is ever delivered again |
| SlaveStream.DeafIffZeroLength | main/slave.c:169-337 | that is the only state from which no bytes lead back to idle |
| SlaveStream.IdleAfterOutstanding | main/slave.c:160-337 | however it got out of step, a receiver in the middle of a frame is idle again after exactly the bytes it still expects, at most 65537, and not before; with a declared length of 0 it never is |
| SlaveStream.RecoversAfterDamage | main/slave.c:141-337 | after lost or changed bytes, everything sent once those are over is decoded, frame by frame |
| SlaveRequests.FlagIffFrame | main/slave.c:191-323 | under every interleaving of received bytes and other senders, a lowered flag is up again if and only if a checksum-valid frame with its id has been decoded since and no other sender lowered it after that |
| SlaveRequests.IntactReplyAcknowledges | main/slave.c:141-323 | an intact reply arriving at an idle receiver while nobody lowers the flag acknowledges the request awaiting its id |
| SlaveMaster.Master.AwaitAck | main/slave.c:522-534 | the polling loop stops at the first look at which the flag is up, after at most the given number of delays |
| SlaveMaster.Master.Request | main/slave.c:447-620 | a request writes its frame and returns true if and only if a valid frame with the awaited id was decoded after the flag was lowered and is seen at one of the bounded looks; an answer before that is lost |
| SlaveMaster.Master.SendID | main/slave.c:447-624 | as Request with at most 10 polls for the eight ids that have feedback; any other id is written but always reported as not sent; a board without a slave writes nothing |
| SlaveMaster.Master.SendControlPilotConfig | main/slave.c:343-392 | true if and only if the configuration was acknowledged within 10 polls |
| SlaveMaster.Master.SendFirmwareData | main/slave.c:394-445 | true if and only if the packet was acknowledged within 500 polls |
| SlaveMaster.Master.UpdateRelay | main/slave.c:837-897 | a state equal to the cached one is reported as done without sending; another is sent, and the cache changes exactly when it is acknowledged |
| RelayCache.CacheIsLastAcked | main/slave.c:842-884 | over every run of calls the cached state is the last one the slave acknowledged |
| RelayCache.CacheUntouched | main/slave.c:842-884 | calls that are not acknowledged never change a relay's cache entry |
| RelayCache.RepliesMatchCacheIffBoolean | main/slave.c:842-897 | a call returns true exactly when the cache then equals the request, whatever the outcome on the line, if and only if the requested state is 0 or 1 |
| RelayCache.UnackedIsResent | main/slave.c:842-884 | the next call for the same state transmits again exactly when the first one failed, or always for a state above 1 |
| SlaveMaster.AnyRelayReplyIsSeen | main/slave.c:198-203 | any intact frame with the relay id, whatever relay it is about, is taken as the acknowledgement of the waiting relay command |
| RelayCache.SuccessMeansSwitchedIff | main/slave.c:842-892 | a call that returns true leaves the slave's relay in the requested state if and only if it was there already, or the call was transmitted and not acknowledged by a reply to something else |
| RelayCache.SuccessMeansSwitchedIffFresh | main/slave.c:842-892 | with only executed commands acknowledged, that holds whatever the line does if and only if the cache entry a call matches is not stale |
| RelayCache.LostAcknowledgementHidesClosedRelay | main/slave.c:842-892 | closing with a lost acknowledgement and then opening reports success while the slave's relay stays closed |
| RelayCache.ForeignAcknowledgementHidesOpenRelay | main/slave.c:866-884 | a lost command during whose wait another relay's reply arrives reports success, and so does repeating it, while the relay stays open |
| RelayCache.CacheMirrorsSlaveIff | main/slave.c:842-884 | over every run from agreement, cache and slave agree throughout if and only if every call was acknowledged exactly when it was executed, calls for what is already there excepted |
| RelayCache.FaithfulRunsReportTruly | main/slave.c:842-892 | in such a run every reported success is true |
| Numerals.DecimalInjective | main/custom_nvs.c:1166-1221 | numbers printed into keys and message ids are never confused |
| Numerals.ValueOfDecimal | main/custom_nvs.c:1166-1221 | reading a printed number gives it back |
| OfflineStore.DataKeyInjective | main/custom_nvs.c:1166-1221 | the printed record keys are injective in connector and index |
| OfflineStore.DataKeyIsNotCountKey | main/custom_nvs.c:51-53 | no record key is a count key |
| OfflineStore.KeysFit | main/custom_nvs.c:1147-1166 | every key in use has at most 15 characters, the store's limit |
| OfflineStore.KeyNames | main/custom_nvs.c:51-53 | the names in the flash, for example Con2OffData17 and OData2count |
| OfflineStore.Store.Read | main/custom_nvs.c:1199-1240 | reading removes the oldest record of the connector and hands it over; an empty queue and all other connectors are untouched |
| OfflineStore.Store.Write | main/custom_nvs.c:1140-1197 | writing appends, after dropping the oldest record when there are 100, which then takes the place of the record last handed over; other connectors are untouched |
| OfflineStore.Store.ReadCount | main/custom_nvs.c:1086-1138 | loading a connector's count creates a missing one as 0 and changes no queue |
| OfflineRuns.FirstInFirstOut | main/custom_nvs.c:1140-1240 | over every run, what was there and what was written is what has been removed and what is left, in the same order, and at most 100 are left |
| OfflineRuns.NothingLostIffNeverFull | main/custom_nvs.c:1158-1166 | what readers have been handed, followed by what is left, is exactly what was there and what was written if and only if no write found the queue full |
| OfflineRuns.ConnectorsIndependent | main/custom_nvs.c:1140-1240 | a connector's queue and what it hands over are the same as if the other connectors had done nothing |
| ProfileStore.Store.Write | main/custom_nvs.c:814-854 | an append below 1000 entries; at 1000 the shift buffer overwrites the argument, so the oldest entry goes and the last one is stored twice |
| ProfileStore.Store.Clear | main/custom_nvs.c:951-980 | the in-place scan over a shrinking array terminates and leaves the sequence in which the entry moved into a hole is not looked at |
| ProfileRuns.OthersSurvive | main/custom_nvs.c:951-980 | clearing an id keeps all other profiles in order, duplicates included |
| ProfileRuns.RunLeavesHalf | main/custom_nvs.c:956-978 | each maximal run of k matching entries leaves k/2 of them, the second, the fourth and so on |
| ProfileRuns.ClearIsFilterIffNotAdjacent | main/custom_nvs.c:956-978 | the id is gone afterwards, and clearing is exactly a filter, if and only if no two adjacent entries carry it |
| ProfileRuns.DistinctIdsClearExactly | main/custom_nvs.c:951-980 | with distinct ids clearing is exactly a filter |
| ProfileRuns.WriteStoresIffRoom | main/custom_nvs.c:825-841 | a write leaves its argument last if and only if there was room or the last entry equalled it; below 1000 earlier entries keep their places |
| ProfileRuns.FullWriteShifts | main/custom_nvs.c:825-841 | at 1000 entries every entry moves one place down, so the oldest is gone, and the last one stays in its place as well |
| ProfileRuns.FullStoreLosesProfile | main/custom_nvs.c:825-841 | at 1000 entries a profile that is not stored yet is stored nowhere |
| ProfileRuns.RunHoldsOnlyWritten | main/custom_nvs.c:814-980 | over every run of writes and clears there are at most 1000 entries, each the argument of an earlier write |
| ProfileChoice.Search | main/custom_nvs.c:871-949 | each search returns the first eligible profile of the highest level above 0, or the zeroed profile when there is none |
| ProfileChoice.SetChargingProfiles | main/custom_nvs.c:982-1009 | connectors 1 to 3 get the profile the three searches decide on, connector 0 and the store keep theirs |
| ProfileChoice.ChoiceIsUnique | main/custom_nvs.c:982-1009 | store, connector and transaction determine the choice |
| ProfileChoice.ChoiceIsSound | main/custom_nvs.c:984-1006 | the choice is zeroed or stored for the connector or for all, is never a TxProfile of another transaction, and is at least as high as every applicable TxDefault or ChargePointMax profile |
| ProfileChoice.OwnOnTopDecides | main/custom_nvs.c:871-1006 | the first of the highest entries for the connector or connector 0 is chosen, whatever its purpose, unless it is a TxProfile of another transaction |
| ProfileChoice.ForeignOnTopDecides | main/custom_nvs.c:990-1001 | if it is one, the first highest TxDefault profile is chosen when no ChargePointMax profile is above it, so also on a tie, else the first highest ChargePointMax profile, else nothing |
| ProfileChoice.SomethingChosenIff | main/custom_nvs.c:876-892 | a connector gets a profile if and only if a usable one has a level above 0, where a foreign TxProfile on top leaves only TxDefault and ChargePointMax profiles usable; level 0, the lowest level of section 3.13.2 of OCPP 1.6 edition 2, never counts |
| ProfileChoice.OwnProfileRespectedIff | main/custom_nvs.c:990-1006 | for every store, no TxProfile of the connector's own transaction outranks the choice, unless the first of the highest applicable entries is a foreign TxProfile and an own one above level 0 outranks every applicable TxDefault and ChargePointMax profile: exactly then one does |
| ProfileChoice.LevelZeroIsIgnored | main/custom_nvs.c:876-892 | a lone TxDefault profile at level 0 leaves the connector with none |
| ProfileChoice.OwnTxProfileShadowed | main/custom_nvs.c:990-1001 | a foreign TxProfile one level higher leaves the connector with no profile although it has its own |
| OcppCore.Core.Send | main/ocpp.c:1588-1628 | a send stores the counter as the slot's id, advances it, and when printed lowers Received for the four kinds that do; the id fits its ten characters |
| OcppCore.Core.Respond | main/ocpp.c:747-844 | a result changes exactly the slots that take its id in the cascade, as the payload says |
| OcppCore.FirstTakes | main/ocpp.c:747-844 | of slots holding the same id the first in the order of the cascade takes the result, and the heartbeat besides |
| OcppRuns.SendEffect | main/ocpp.c:1452-2005 | a printed send leaves Received down for MeterValues, Authorize, StartTransaction and StopTransaction and as it was for the five other kinds; one that is not printed changes only the id |
| OcppRuns.ResultEffect | main/ocpp.c:747-844 | a result to the latest request raises Received whatever its payload for Status, MeterValues and FirmwareStatus, sets it as the payload says for the others, and does nothing for diagnostics |
| OcppRuns.IdsNeverReused | main/ocpp.c:1452-2005 | no two sends of a run issue the same id |
| OcppRuns.SlotIdsDistinct | main/ocpp.c:1452-2005 | ids held in different slots are distinct |
| OcppRuns.ResultReachesItsRequest | main/ocpp.c:747-844 | a result with the id of a slot's latest request changes that slot, kind and connector, and nothing else (section 4.1.4 of OCPP-J 1.6); diagnostics results are ignored |
| OcppRuns.OtherResultsIgnored | main/ocpp.c:747-844 | any other non-empty id changes nothing |
| OcppRuns.SupersededIdIsStale | main/ocpp.c:747-844 | an issued id is some slot's latest one if and only if its own slot has not sent again |
| OcppRuns.ReceivedMeansAnswered | main/ocpp.c:776-838 | Received on an Authorize, StartTransaction, StopTransaction or MeterValues slot means a result with the id it then held came after its latest printed request |
| OcppRuns.ReceivedMeansLatestAnswered | main/ocpp.c:776-838 | when the slot's latest request was printed, that result carries its id, was good, and has not been followed by a bad one or consumed, whatever other requests and results there were |
| OcppRuns.ReceivedIff | main/ocpp.c:776-838 | Received is up if and only if such a result to the latest request stands, or that request was not printed, found Received up, and nothing has lowered it since |
| OcppRuns.ReceivedTrustedIff | main/ocpp.c:1588-1628 | in every continuation up to the slot's next request Received means a good result to the request just sent if and only if it was printed or Received was down before it |
| OcppRuns.UnprintedRequestLooksAnswered | main/ocpp.c:1594-1623 | a request that could not be printed takes a new id and leaves the old Received standing |
| OcppRuns.LeftOverIsOlderAnswer | main/ocpp.c:776-838 | what is left standing is an answer that came before that request, under the id the slot held then |
| LocalList.List.Process | main/ocpp.c:976-1179 | what a message does to version, type, the ten slots and Received, for lists, wipes and unknown types |
| LocalList.UpdateByType | main/ocpp.c:1002-1097 | a type beginning with Full or with Differential makes the full or the differential update |
| LocalList.OtherTypesIgnored | main/ocpp.c:1002-1177 | any other type changes no slot and is not received |
| LocalList.MissingListWipes | main/ocpp.c:1071-1092 | without a list, version and type together empty every slot |
| LocalList.AcceptedMeans | main/ocpp.c:1016-1160 | a list is received if and only if version and type are given and each item that is looked at, the first ten or the first 10-2e, has an idTag |
| LocalList.UntaggedOverlays | main/ocpp.c:1030-1065 | an item without an idTag keeps presence and idTag of its slot and copies its strings over the old ones, whose ends stay when longer |
| LocalList.FullKeepsFirstTen | main/ocpp.c:1007-1070 | a full list leaves exactly its first ten items, in order, each field by field and empty where missing (section 5.15 of OCPP 1.6) |
| LocalList.DifferentialAppends | main/ocpp.c:1095-1158 | with e entries present a differential list keeps those and appends the first min(n, max(0, 10-2e)) items, each field by field |
| LocalList.DifferentialSlots | main/ocpp.c:1095-1158 | whatever is in the slots, which of them keep their entry, take an item, or are marked absent |
| LocalList.DifferentialStoresAllThatFitIff | main/ocpp.c:1107-1122 | that is everything the ten slots have room for if and only if the list was empty or full or n is at most 10-2e |
| LocalList.HalfFullListIsStuck | main/ocpp.c:1122-1122 | with five entries present nothing is added although five slots are free |
| LocalList.PresentEntriesStayPrefix | main/ocpp.c:976-1179 | over every run whose items all carry an idTag the present entries form a prefix of the slots |
| SlaveTransfer.Transfer.SendPacket | main/OTA.c:325-334 | a packet is sent again unchanged until it is acknowledged, then the number advances by one |
| SlaveTransfer.Transfer.SendBuffer | main/OTA.c:322-345 | the acknowledged packets of a buffer are its cuts of at most 200 bytes, numbered on |
| SlaveTransfer.PacketsAreFull | main/OTA.c:322-345 | all packets of a buffer but the last carry 200 bytes |
| SlaveTransfer.Transfer.Run | main/OTA.c:306-381 | for every sequence of reads and every pattern of missing acknowledgements, acknowledged packets are numbered 0, 1, 2, ... without gaps, carry 1 to 200 bytes, are repeated unchanged, and concatenate to exactly the bytes read |
| SlaveTransfer.PassedOnMeans | main/OTA.c:306-381 | the pieces sent are the first ones, up to an empty one, an error, or the piece that reaches the announced length, which is still sent |
| SlaveArrivals.AcknowledgedMeansReceivedIff | main/OTA.c:322-345 | whatever is lost on the line, a transfer acknowledged in full has reached the slave in full if and only if every acknowledgement answered a transmission of the packet it was taken for |
| SlaveArrivals.LateAcknowledgementLosesPacket | main/slave.c:394-445 | a late reply to a repeated packet stands in for the next one, which was lost |
| OtaProgress.ProgressNeverFalls | main/OTA.c:345-355 | with each device updated in one go and growing counts within the announced sizes, progress stays in 0..100, at most 50 for the slave, at least 50 for the master, and never falls |
| OtaProgress.ProgressFallsIff | main/OTA.c:345-470 | over any number of attempts it falls exactly where a further attempt for the same device starts with fewer bytes than the one before had reached |
| OtaProgress.PercentageBound | main/OTA.c:346-448 | a percentage exceeds 100 exactly when more bytes than announced have come |
| OtaProgress.ProgressScale | main/OTA.c:346-470 | progress is the share of the bytes, alone of the whole, together of the half below or above 50 |
| OtaTask.Task.Run | main/OTA.c:641-824 | the sequence of checks and updates and the ending are those of the decision and retry rules, for every behaviour of the server and the slave and every pattern of stray success frames |
| OtaRuns.StepsAreBounded | main/OTA.c:683-791 | R requested retries allow at most R+1 checks and R attempts per device; a device, master or slave, that never answers gets exactly the budget and no update |
| OtaRuns.FailingChecks | main/OTA.c:669-706 | a device that is never described is checked R+1 times, with R taken as 5 when negative or above 5, and three times for R = 0 |
| OtaRuns.FirstDescriptionEndsChecks | main/OTA.c:690-706 | the first description ends the checks |
| OtaRuns.FailingUpdates | main/OTA.c:709-780 | an image that never takes is tried R times, for R = 0 twice, or once when a check had to be repeated |
| OtaRuns.EndingWithoutSuccess | main/OTA.c:720-818 | without a success the run ends as failed update, already current, or failed download, by what the last checks said |
| OtaRuns.MasterAfterSlaveIff | main/OTA.c:724-791 | the master image is written only with no slave, or after the slave was found current or was just updated successfully, unless both images are new and a stray success frame comes in time for an attempt up to which the slave has answered failure: exactly then it is written after a failure |
| OtaRuns.StrayFrameBetweenAttempts | main/OTA.c:729-760 | with the flag down at the start, fail, a success frame before the second attempt, and fail again write the master image |
| OtaRuns.RestartIff | main/OTA.c:782-791 | the charger restarts exactly when some update succeeded or a stray success frame was taken for the success of a new slave image |
| OtaRuns.AlreadyLatestIffSlave | main/OTA.c:720-807 | with nothing new it says so exactly when there is a slave; without one it ends in failure |
| LogRing.Printer.Print | main/logsToSpiffs.c:340-398 | the item is appended to the current file, and the next file becomes current and empty exactly when the current one now has 350*1024-200 bytes or more and rotation is not held back; the ring invariant is kept |
| LogRing.FilesStayBounded | main/logsToSpiffs.c:340-398 | while rotation is not held back the current file is shorter than 350*1024-200 bytes and every file than that and the longest item |
| LogRing.HeldPrinting | main/logsToSpiffs.c:340-398 | while it is held back the file number and all other files stay as they are and the current file takes everything |
| LogRing.ReleaseRotates | main/logsToSpiffs.c:362-396 | the first item after a hold moves on from a file that has become too long |
| LogRing.RotationDropsOldest | main/logsToSpiffs.c:366-396 | starting the next file drops exactly the oldest part of what is kept |
| LogRing.KeptIsLongSuffix | main/logsToSpiffs.c:340-398 | in every state the files in upload order are a suffix of everything ever logged, and it is all of it or at least 7*(350*1024-200) bytes |
| LogRing.Printer.Upload | main/logsToSpiffs.c:40-250 | with printing and rotation going on between the files, the upload is what the files hold, one after the other, when each is read |
| LogUpload.UploadContinuesIff | main/logsToSpiffs.c:50-250 | whatever is printed meanwhile, the upload is what was kept at its start followed by what was logged next and nothing else, if and only if every file that rotation reaches before it is read was unused at the start and is still empty; each character carries its position in the log |
| LogUpload.UnharmedIsLongSuffix | main/logsToSpiffs.c:50-250 | then, even if characters repeat, it is a suffix of the log up to a point not before the start, all of it or at least 7*(350*1024-200) bytes |
| LogUpload.HoldProtectsFirstFile | main/logsToSpiffs.c:87-166 | unless something was printed before the hold, the first file is read as it was kept, whatever is printed meanwhile |
| LogUpload.HoldEndsWithFirstFile | main/logsToSpiffs.c:166-249 | after the first file printing follows the same rule as without an upload |
| LogUpload.EarlyRotationReordersUpload | main/logsToSpiffs.c:50-87 | one rotation between noting the current file and holding rotation back puts the new text before the old |
| SwSerial.Write | main/sw_serial.h:150-182 | the levels put on the line carry the byte, lowest bit first, inverted or not |
| SwSerial.Sample | main/sw_serial.h:95-103 | the sampling loop rebuilds a byte whose bits are the samples |
| SwSerial.RoundTrip | main/sw_serial.h:81-182 | for either polarity ten sampled levels carry a byte if and only if the receiver frames them and reads that byte |
| SwLine.BytesHeard | main/sw_serial.h:81-182 | with the edge that starts the receiver, every sequence of bytes and pauses is received in full on a normal port, and on an inverted one nothing is but the first byte after a low line |
| SwLine.AllHeardIff | main/sw_serial.h:133-182 | everything sent is received if and only if the port is not inverted or there is no more than that first byte |
| SwSerial.Port.Receive | main/sw_serial.h:81-130 | a well-framed byte is appended to the queue of capacity buffSize-1, or dropped with the overflow flag set when it is full; a badly framed one changes nothing |
| SwSerial.Port.Read | main/sw_serial.h:184-193 | reading takes the oldest byte, or returns -1 |
| SwSerial.Port.Any | main/sw_serial.h:233-237 | the number of bytes waiting |
| SwSerial.Port.Peek | main/sw_serial.h:250-257 | the oldest byte, left in place |
| SwSerial.BurstKeepsOldest | main/sw_serial.h:108-119 | of a burst the oldest bytes are kept, as many as fit |
| SwSerial.ReadsReturnKeptInOrder | main/sw_serial.h:81-193 | over every interleaving reads return the kept bytes in order |
| RelayBoard.Board.UpdateRelayState | main/faultGpios.c:230-262 | on this board only a change of relay 1 acts, and it resets both timers |
| RelayBoard.Board.PilotTask | main/ControlPilotState.c:80-138 | one reading is classified by the cascade and commands relay and pilot duty |
| RelayBoard.Board.FaultsTask | main/faultGpios.c:44-80 | one turn counts the timer of the present state up to 230 and sets the duty |
| RelayBoard.Board.MeterTask | main/EnergyMeter.c:399-423 | the weld flag after one meter reading |
| RelayBoard.RelayFollowsCommands | main/faultGpios.c:44-80 | over every interleaving the relay is closed iff the last command classified C or D, its PWM is 0 iff open and otherwise a fixed function of the time closed, and at most one timer is non-zero, equal to min(230, turns in the present state) |
| RelayBoard.ReadingDecides | main/ControlPilotState.c:80-138 | window by window in the order compared: the state reported, the relay closed exactly by C and D, and the configured pilot duty exactly for B2, C and D |
| RelayBoard.OtherEventsDecide | main/faultGpios.c:44-262 | the end of a transaction opens the relay and rests the pilot at 100; fault and meter turns touch neither |
| RelayBoard.DutyByTurns | main/faultGpios.c:50-73 | the coil's duty is 1024, 768, 512 or 256 with at most 75, 150, 225 or more turns closed, and 0 when open |
| RelayBoard.DutyNeverRises | main/faultGpios.c:50-73 | while the relay stays closed its duty never rises |
| RelayBoard.WeldReportedIff | main/EnergyMeter.c:399-423 | a weld is flagged exactly when the voltage contradicts a state that has lasted more than 50 unbroken turns |
| RelayBoard.StateOfLastMatch | main/ControlPilotState.c:80-138 | over every interleaving the reported state is that of the last reading that matched a window, and the relay is closed iff that was C or D and nothing has commanded it since |
| RelayBoard.PilotStateLagsIff | main/ControlPilotState.c:114-138 | over every interleaving C or D is reported with the relay open if and only if the last reading that matched a window was C or D and an unmatched reading or a stop came after it |
| RelayBoard.GapOpensRelayInStateC | main/ControlPilotState.c:309-328 | the first row of the AC1 table has a gap in which that happens |
| RelayBoard.StopOpensRelayInStateC | main/ocpp_task.c:5885-5898 | so does the end of a transaction, with no gap in the readings |

## Left out

- JSON parsing and printing, fixed-size string copying and timestamps: the model starts from decoded fields; payload checks of results are one boolean.
- StartTransactionResponseProcess and its siblings beyond that boolean: straight-line copying of fields.
- SlaveDecoder.Decoder.Receive: the effects of delivered frames other than the flags and errorMessage: pilot states, push buttons, the firmware version string and the automatic responses.
- The received log of the slave's own firmware: in RelayCache the slave is assumed to switch its relay when a command reaches it.
- OtaTask.Task.Run: the wait for the slave's status is always answered, by one of the two status frames; PerformSlaveOta's own success mark is not kept because the status answer overwrites it.
- SlaveTransfer.Transfer.Run: 32-bit wrap-around of packet and byte counts, which no image reaches, and negative read results without an error event.
- LogRing.Printer.Print: file operations succeed; messages dropped before the ring buffer are not logged.
- LogRing.Printer.Upload: each file is read in one moment; the HTTP transfer with its retries, and the replacement of double quotes, are not modelled.
- SwSerial.Port.Receive: bit timing; the receiver samples every bit once, in step with the transmitter. The edge that starts it is in SwLine.
- RelayBoard.Board.PilotTask: connector 2's pilot loop, which classifies but switches no relay on this board; the threshold tables are parameters.
- Callers in main/ocpp_task.c, except that opening the relay at the end of a transaction is an event of RelayBoard.
- UART, SPI, I2C, GPIO, HTTP and FreeRTOS calls, the user interface, network selection, RFID, clock and meter calibration.
- Boot notification's effect on the heartbeat interval.
