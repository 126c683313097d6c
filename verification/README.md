# corten-matrix: a verified model

corten-matrix bridges iMessage to Matrix. This project models seven of its components in Dafny and
proves what they promise for every input, every run or every reachable state.

* **Opus remuxer** (`Collections`, `Bytes`, `OggCrc`, `OggPages`, `Greedy`, `OpusToc`, `OggOpus`, `OggTiming`, `CafTable`,
  `CafOpus`, `CafVariants`, `AudioConvert`). Ogg pages with lacing (section 6 of RFC 3533), granule positions (section 4 of RFC 7845),
  Opus frame counts (section 3 of RFC 6716), CAF chunks with a VLQ packet table. Writers, readers and the
  CRC are loops proved against functions; the functions carry round trips, page limits and the remux law.
* **CloudKit message cache** (`CloudDb`, `CloudRuns`, `CloudRehydrate`, `CloudStore`, `CloudLives`, `CloudScrub`,
  `CloudTail`, `CloudRekey`, `AttachmentCache`). Each SQL statement is one atomic step on a table of rows.
  `CloudRuns` proves what every interleaved run with a nondecreasing clock keeps, and `CloudLives` what each step
  makes of a message; the other modules take one operation each and prove it equal to a declarative reference, on
  a quiet table, under concurrent writers, or both.
* **Backward backfill from chat.db** (`Keyset`, `MacMessages`, `ChatDbPaging`). Keyset cursors over any strict
  total order, and whole sessions over several chat GUIDs.
* **DM identity** (`ContactMerge`), **contact search** (`FuzzyMatch`), **carrier-route limiter** (`CarrierRoute`)
  and the **systemd unit file** (`UnitFile`).

Imperative code keeps its form: byte buffers, the message store, the attachment cache, the check log and the
two-row table are classes or arrays that methods update in place, each proved against a specification function.

Some natural laws are false of the code. Each has an exact condition, and a lemma at a concrete input that breaks it:

* A chat.db session whose page boundary falls on the Unix epoch restarts or loses a chat
  (`ChatDbPaging.SessionCompletesExactly`; `ChatDbPaging.EpochSessionFails`).
* Ogg pages carry a wrong time when their packets differ in length from the first (`OggTiming.PageKeepsTimeExactly`;
  `OggTiming.MixedDurationsDrift`, `OggTiming.MixedWitness`).
* A CAF round trip changes the end position unless it lies after the pre-skip
  (`CafOpus.CafRoundTripExact`; `CafOpus.EndAtPreSkipMoves`).
* A deleted message that arrives later under another letter case is live again
  (`CloudRuns.LateArrivalIsLiveExactlyWhenRespelled`, `CloudRuns.RespelledOnlyByInsertion`;
  `CloudRuns.RespelledArrivalIsLive`).
* Group re-keying need not settle (`CloudRekey.SecondRunIdleExactly`; `CloudRekey.SwapNeverSettles`).
* Initial sync and live routing can part when a handle contains a bar (`ContactMerge.LiveAgreesExactly`;
  `ContactMerge.BarPartsSyncFromLive`, `ContactMerge.BarWitness`).
* Attachment pruning misses references at negative timestamps (`AttachmentCache.PruneQuietly`;
  `AttachmentCache.NegativeTimestampIsMissed`).
* Reinstalling a unit is a fixpoint only for values with bare ends (`UnitFile.ReinstallIsFixpointExactly`;
  `UnitFile.TrailingBlankIsDropped`).

Where the code and its comments disagree the model follows the code: `scrubUnbridgedTail` describes its
threshold as counting rows that `listLatestMessages` would not return, but both use the same population.

`dafny verify dfyconfig.toml` checks the whole project.

## Model

| member | source | states |
|---|---|---|
| `OggCrc.CrcIsPolynomialRemainder` | pkg/connector/audioconvert.go:288-310 | for every generator, 0x04C11DB7 among them, the bitwise register is the remainder of the message polynomial by long division, for every byte string |
| `OggCrc.BuildCrcTable` | pkg/connector/audioconvert.go:288-302 | entry i of a generator's table is the bitwise register after byte i |
| `OggCrc.TableStep` | pkg/connector/audioconvert.go:304-310 | one table lookup equals eight single-bit division steps, by linearity of the step |
| `OggCrc.OggCrc` | pkg/connector/audioconvert.go:304-310 | the table-driven loop computes the bit-by-bit division on every input |
| `OggCrc.GeneratorIsHex` | pkg/connector/audioconvert.go:294 | the generator's bits are those of 0x04C11DB7 |
| `OggCrc.BuildOggTable` | pkg/connector/audioconvert.go:287-302 | the bridge's table is that of 0x04C11DB7 |
| `OggCrc.Checksum` | pkg/connector/audioconvert.go:304-310 | with that table, the loop gives the stored checksum value of every byte string |
| `OggPages.PacketsIgnorePageBreaks` | pkg/connector/audioconvert.go:448-502 | two page sequences with the same lacing values and bytes, cut into pages in any way, read as the same packets, packets continued across pages included |
| `OggPages.AssemblePackets` | pkg/connector/audioconvert.go:468-498 | lacing a packet list and reassembling it gives the list back, lengths 0 and multiples of 255 included |
| `OggPages.ReadSegments` | pkg/connector/audioconvert.go:476-494 | the segment loop adds exactly the laced segments to the assembly |
| `OggPages.ReadOggPackets` | pkg/connector/audioconvert.go:448-502 | the page loop computes the reference reader, errors included |
| `OggPages.HeaderLayout` | pkg/connector/audioconvert.go:362-398 | every header field of a page stands at the offset section 6 of RFC 3533 gives it |
| `OggPages.TailDecides` | pkg/connector/audioconvert.go:448-502 | after well-formed pages up to three stray bytes are ignored, and a page cut short or anything else is an error |
| `OggPages.UnfinishedPacketIsKept` | pkg/connector/audioconvert.go:476-501 | a stream that ends inside a packet keeps what it has of that packet |
| `Greedy.GroupPartitions` | pkg/connector/audioconvert.go:325-357 | greedy grouping loses, repeats and reorders nothing and makes no empty page |
| `Greedy.GroupIsGreedy` | pkg/connector/audioconvert.go:325-357 | a page is closed only where the next packet would not fit |
| `OpusToc.PacketFrames` | pkg/connector/audioconvert.go:593-630 | a packet never counts as zero frames, whatever its TOC byte |
| `OpusToc.FramesAreDuration` | pkg/connector/audioconvert.go:593-630 | the count is the packet's duration at 48 kHz by the RFC's table of frame durations and its frame count code, or one frame when the packet carries no count |
| `OggOpus.StoredChecksum` | pkg/connector/audioconvert.go:372-397 | recomputing the checksum over a written page with bytes 22 to 25 zeroed gives the stored value |
| `OggOpus.WriteOggPage` | pkg/connector/audioconvert.go:360-398 | the bytes appended are the encoded page with its checksum |
| `OggOpus.PackWithinLimits` | pkg/connector/audioconvert.go:325-357 | every page the packer makes has at most 255 segments and respects the size limit |
| `OggOpus.WriteOggOpus` | pkg/connector/audioconvert.go:312-358 | the writer's loop produces exactly the specified page stream |
| `OggTiming.PagePositions` | pkg/connector/audioconvert.go:330-357 | in the bytes of every inner page stands the pre-skip and the first packet's duration for each packet a reader has completed by then, capped by the end position; those are some but not all packets |
| `OggTiming.PageKeepsTimeExactly` | pkg/connector/audioconvert.go:330-357 | that is the true time, the sum of the completed packets' durations, if and only if those last as long as so many first packets or the end is reached either way |
| `OggTiming.UniformPagesKeepTime` | pkg/connector/audioconvert.go:330-357 | so a stream of equally long packets keeps time on every page |
| `OggTiming.MixedDurationsDrift` | pkg/connector/audioconvert.go:330-357 | a stream whose first page holds two packets of different length never does |
| `OggTiming.MixedWitness` | pkg/connector/audioconvert.go:330-357 | a concrete such stream |
| `OggOpus.PagesAreFull` | pkg/connector/audioconvert.go:325-345 | a page is begun only where the packet would take the last one past 48000 bytes or 255 segments |
| `OggOpus.TagsFields` | pkg/connector/audioconvert.go:399-410 | the tags packet is a comment header with its vendor's length and name and no comments |
| `OggOpus.AnyPageBreaksRoundTrip` | pkg/connector/audioconvert.go:312-502 | any page grouping of the packets reads back as head, tags, packets and positive end position |
| `OggOpus.OggPacketsRoundTrip` | pkg/connector/audioconvert.go:312-502 | writing then reading Ogg returns the head, the tags packet, the packet list and the granule when positive |
| `OggOpus.OggParseRoundTrip` | pkg/connector/audioconvert.go:423-446 | a written stream parses exactly when its head is an OpusHead, and to what |
| `OggOpus.OggRoundTripExact` | pkg/connector/audioconvert.go:312-446 | a stream survives the Ogg pair unchanged if and only if its head describes it and its end is not negative |
| `OggOpus.PageStreamShape` | pkg/connector/audioconvert.go:312-358 | consecutive sequence numbers, begin flag only on the first page, end flag only on the last, at most 255 segments a page |
| `OggOpus.GranulesAscendExactly` | pkg/connector/audioconvert.go:330-357 | for any grouping, granules never decrease and stay below the final one if and only if the end position is not negative |
| `OggOpus.WrittenGranulesAscend` | pkg/connector/audioconvert.go:330-357 | the same for the pages the writer produces |
| `OggOpus.ParseOggOpus` | pkg/connector/audioconvert.go:423-446 | the parser computes its specification, including its one failure |
| `CafTable.CafVlq` | pkg/connector/audioconvert.go:571-585 | the buffer loop writes the VLQ of the value and never needs more than ten bytes |
| `CafTable.VlqSelfDelimiting` | pkg/connector/audioconvert.go:241-268 | reading a written VLQ gives the value and leaves exactly the bytes after it |
| `CafTable.DecodeCafPacketSizes` | pkg/connector/audioconvert.go:241-268 | the decoding loop computes the reference decoder, both branches |
| `CafTable.TableRoundTrip` | pkg/connector/audioconvert.go:508-562 | the packet table decodes to the packet lengths |
| `CafOpus.ParseCafOpus` | pkg/connector/audioconvert.go:76-239 | the chunk loop and packet splitter compute the reference parser, every error path included |
| `CafVariants.AnyFileParses` | pkg/connector/audioconvert.go:76-239 | every CAF Opus file whose table tells the packet sizes, constant, with frame counts or without, with or without a cookie, parses to the packets and the stated fields, whatever foreign chunks, longer description, version, edit count or open-ended audio chunk it has |
| `CafVariants.PaddingIsInvisible` | pkg/connector/audioconvert.go:174-177 | foreign chunks at any chunk boundary of a written file, and bytes after its description, change nothing that is parsed |
| `CafVariants.ForeignChunkSkipped` | pkg/connector/audioconvert.go:174-177 | a chunk of an unknown kind is as if it were not there, from any state |
| `CafVariants.ForeignSizes` | pkg/connector/audioconvert.go:174-177 | one that claims more than there is ends the file, and a size that is not positive claims nothing |
| `CafVariants.LongDescription` | pkg/connector/audioconvert.go:124-126 | bytes past the 32 of a description change nothing, from any state |
| `CafVariants.BadChunks` | pkg/connector/audioconvert.go:109-166 | known chunks that end too soon, are too small or of another format are errors, and negative sizes panic |
| `CafVariants.NoTableIsRejected` | pkg/connector/audioconvert.go:206-208 | a file without a packet table and without a constant size is an error |
| `CafVariants.OtherFailures` | pkg/connector/audioconvert.go:76-204 | what is not a CAF file is an error; a negative packet count panics |
| `CafVariants.SplitCuts` | pkg/connector/audioconvert.go:214-223 | sizes that run past the audio keep exactly the packets before them |
| `CafVariants.CountsAreSkipped` | pkg/connector/audioconvert.go:241-268 | a table with a frame count of any length after each size decodes to the sizes |
| `CafVariants.ChunkNames` | pkg/connector/audioconvert.go:80-168 | the chunk types and magic numbers spell their names |
| `CafOpus.BuiltHeadFields` | pkg/connector/audioconvert.go:270-281 | a head that is made up is an identification header for 48 kHz with the given channels and pre-skip |
| `CafOpus.WriteCafOpus` | pkg/connector/audioconvert.go:508-569 | the writer produces exactly the specified file |
| `CafOpus.SampleRateIs48000` | pkg/connector/audioconvert.go:524 | the description's sample rate is the double 48000 |
| `CafOpus.CafRoundTrip` | pkg/connector/audioconvert.go:76-268 | for every stream with audio: writing then parsing CAF returns the packets, and what becomes of head, channels, pre-skip and end position, heads that describe nothing and negative ends included |
| `CafOpus.CafRoundTripExact` | pkg/connector/audioconvert.go:508-562 | a stream survives the CAF pair unchanged if and only if its head is a cookie that gives its pre-skip and channels, and it ends after its pre-skip |
| `CafOpus.CafRoundTripMatching` | pkg/connector/audioconvert.go:212-228 | with a describing head only a missing channel count and an end within the pre-skip change, and to what |
| `CafOpus.EndAtPreSkipMoves` | pkg/connector/audioconvert.go:508-562 | a concrete one-packet stream whose end moves by a packet |
| `AudioConvert.RemuxPreservesStream` | pkg/connector/audioconvert.go:30-74 | any Ogg input that parses comes back from CAF with the same stream if and only if it ends after its pre-skip |
| `AudioConvert.RemuxIsIdentityOnWrittenOgg` | pkg/connector/audioconvert.go:30-74 | Ogg bytes the bridge wrote survive Ogg to CAF to Ogg byte for byte |
| `AudioConvert.DurationIsMilliseconds` | pkg/connector/audioconvert.go:67 | the duration is the end position at 48 kHz in whole milliseconds |
| `AudioConvert.OthersPassThrough` | pkg/connector/audioconvert.go:30-74 | what is not in the expected container, or does not parse, is passed on as it is; a CAF without packets panics |
| `CloudDb.FilterClasses` | pkg/connector/cloud_backfill_store.go:5171-5212 | readable and permanently filtered are disjoint, and a row is neither exactly when its source chat exists only on other portals |
| `CloudDb.ReadableExactly` | pkg/connector/cloud_backfill_store.go:5171-5212 | rows of a known chat are readable when it is live and wanted on their portal, rows of an unknown chat unless junk is unwanted and the portal has a real junk chat; what is filtered for good, in the same terms |
| `CloudRuns.RunsKeepInv` | pkg/connector/cloud_backfill_store.go:907-941 | in every reachable state, individually deleted implies deleted, scrubbed and body-free, scrubbed implies no text and subject, and rehydrate markers are sound |
| `CloudRuns.EmptyStoreOk` | pkg/connector/cloud_backfill_store.go:93-99 | the invariant holds of a store without messages |
| `CloudRuns.TombstonesAreForever` | pkg/connector/cloud_backfill_store.go:3996-4090 | once individually deleted, no run makes the row live or gives it text, subject, sender or emoji until it is hard-deleted |
| `CloudRuns.DeletePlantsTombstone` | pkg/connector/cloud_backfill_store.go:2370-2424 | a per-message delete tombstones every stored spelling, or plants a tombstone when none exists |
| `CloudRuns.DeletedBeforeArrival` | pkg/connector/cloud_backfill_store.go:2370-2424 | a message deleted before it arrives stays dead through any later run |
| `CloudRuns.LateArrivalIsLiveExactlyWhenRespelled` | pkg/connector/cloud_backfill_store.go:2370-2424 | after the delete, an arriving record is live if and only if its exact spelling is not in the table |
| `CloudRuns.RespelledArrivalIsLive` | pkg/connector/cloud_backfill_store.go:2370-2424 | a concrete respelled arrival that is live |
| `CloudRuns.LiveOnlyIfInsertedLater` | pkg/connector/cloud_backfill_store.go:907-941 | over whole runs, a tombstoned or absent spelling has a live or filled row later only if some later step inserted that very spelling |
| `CloudRuns.RespelledOnlyByInsertion` | pkg/connector/cloud_backfill_store.go:2370-2424 | after a per-message delete that holds of every spelling of the message |
| `CloudLives.LifeHasCause` | pkg/connector/cloud_backfill_store.go:3996-4060 | over a whole run that keeps its row a message changes between live and deleted only through a step that deletes or revives it |
| `CloudLives.StepDecidesLife` | pkg/connector/cloud_backfill_store.go:882-1022 | after a step a row is deleted exactly if the step deletes it, or it was deleted and the step does not revive it |
| `CloudLives.OnlySweepsRemove` | pkg/connector/cloud_backfill_store.go:5590-5680 | only a hard delete or the orphan sweep takes a row away |
| `CloudLives.OrphansGoExactly` | pkg/connector/cloud_backfill_store.go:5590-5680 | the orphan sweep takes exactly the named rows that are deleted, not one by one, and on a portal without chats |
| `CloudLives.UndeletesMakeLive` | pkg/connector/cloud_backfill_store.go:3996-4060 | undeleting a portal or recycle-bin GUIDs makes exactly those rows live, save the ones deleted one by one, and changes nothing else |
| `CloudLives.RestoreLosesWords` | pkg/connector/cloud_backfill_store.go:2529-4031 | deleting a portal and undeleting it loses the words of the rows that were live, and nothing else |
| `CloudLives.RestoredChatRefills` | pkg/connector/cloud_backfill_store.go:4062-4098 | once the scrub flags are lifted too, the next upsert of a message brings all of it back |
| `CloudLives.ClearsKeepRecord` | pkg/connector/cloud_backfill_store.go:4072-4283 | lifting scrub flags leaves every record, frees exactly the rows meant, and never touches a row deleted one by one |
| `CloudLives.DeletesTakeWords` | pkg/connector/cloud_backfill_store.go:981-1022 | a batch delete and a portal delete take the words of the live rows they name and leave the others |
| `CloudLives.ScrubTakesWords` | pkg/connector/cloud_backfill_store.go:5335-5345 | scrubbing takes text, subject, sender and emoji, and nothing else |
| `CloudLives.ReactionsLoseText` | pkg/connector/cloud_backfill_store.go:5370-5440 | scrubbing reactions takes text and subject of old reactions and leaves sender and emoji |
| `CloudLives.ChangesAreDated` | pkg/connector/cloud_backfill_store.go:882-5351 | upserts, portal and batch deletes, undeletes and cleared flags date the rows they change, a reroute when it is given a date; per-message deletes, scrubs and echoes keep the date |
| `CloudLives.HardDeletesExactly` | pkg/connector/cloud_backfill_store.go:2605-2618 | a hard delete takes exactly the rows it names |
| `CloudLives.SoftDeleteRoutes` | pkg/connector/cloud_backfill_store.go:2370-2424 | a per-message delete keeps the portal a row has, else gives it the caller's, and a stub likewise |
| `CloudLives.PersistedIsKnown` | pkg/connector/cloud_backfill_store.go:2711-2721 | a persisted UUID is in the table; a row that was there keeps its record and gains a portal if it had none |
| `CloudLives.TapbackIsKnown` | pkg/connector/cloud_backfill_store.go:2848-2856 | so is a persisted reaction, with its kind; a row that was there is left alone |
| `CloudLives.SeededIsLive` | pkg/connector/client.go:5812-5830 | a recycle-bin seed puts a row on its portal and makes it live unless it was deleted one by one; a new row reads back the seed |
| `CloudRehydrate.RehydrateProtocol` | pkg/connector/cloud_backfill_store.go:4121-4257 | under any interleaved upserts on an unmoved portal: untouched rows are exactly restored, upserted content stays unscrubbed, empty upserts are scrubbed again |
| `CloudRehydrate.BeginClearsExactly` | pkg/connector/cloud_backfill_store.go:4127-4187 | it begins by clearing exactly the scrubbed, live and readable rows of the portal |
| `CloudRehydrate.EndRescrubsExactly` | pkg/connector/cloud_backfill_store.go:4194-4257 | it ends by scrubbing again exactly the attempt's rows still on the portal and unscrubbed that are untouched since or empty, an untouched one with its old date |
| `CloudRehydrate.RehydrateLeavesOthers` | pkg/connector/cloud_backfill_store.go:4121-4257 | rows outside the attempt pass both ends unchanged |
| `CloudRehydrate.UpsertsNeverForget` | pkg/connector/cloud_backfill_store.go:907-941 | through any upserts read times only grow, replies stick, creation time stands, and the row is deleted exactly if it was or some record said so |
| `CloudStore.KeepsTheNewest` | pkg/connector/cloud_backfill_store.go:882-905 | what is written for a GUID is exactly its newest record of the batch, the last one on a tie |
| `CloudStore.Store.UpsertMessageBatch` | pkg/connector/cloud_backfill_store.go:882-980 | deduplication and the statement loop amount to one upsert step; every GUID's newest record reads back column by column from the table, with what sticks from a row already there; no other row changes |
| `CloudStore.Store.SoftDeleteRow` | pkg/connector/cloud_backfill_store.go:2370-2424 | update-or-insert amounts to one soft-delete step |
| `CloudStore.Store.UpdateInChunks` | pkg/connector/cloud_backfill_store.go:4033-4060 | chunked statements amount to one statement over all GUIDs |
| `CloudStore.Store.ClearBodyScrubForRehydrate` | pkg/connector/cloud_backfill_store.go:4127-4187 | capture and chunked clearing amount to one step, and return exactly the captured rows |
| `CloudStore.Store.RescrubClearedRows` | pkg/connector/cloud_backfill_store.go:4194-4257 | chunked rescrubbing amounts to one step |
| `CloudStore.Store.UndeleteRecycleBinMessages` | pkg/connector/cloud_backfill_store.go:4033-4060 | chunked undeleting amounts to one step |
| `CloudStore.Store.DeleteLocalChatByPortalID` | pkg/connector/cloud_backfill_store.go:2529-2587 | four statements delete every row of the portal and its group's sibling portals once, and flag all those chats |
| `CloudStore.Store.DeleteReachesExactly` | pkg/connector/cloud_backfill_store.go:2529-2587 | those are the rows on the portal or on a portal of a chat of its group, and the chats on the portal or named by the group's UUID in any letter case |
| `CloudScrub.LoadBridgedMessageIDs` | pkg/connector/cloud_backfill_store.go:5023-5055 | a witness exists for exactly the keys some delivered message stands for, and each witness is such a message |
| `CloudScrub.StandsForExactly` | pkg/connector/cloud_backfill_store.go:5011-5052 | a delivered id stands for a GUID when it spells it in any letter case, alone or followed by an underscore and a part |
| `CloudScrub.ScrubPass` | pkg/connector/cloud_backfill_store.go:5094-5351 | with any other writers between listing, witness reading and each batch: every row scrubbed is at that moment old enough and deleted, permanently filtered, or readable, waiting for no chat and with a matching delivered message in its own portal; and every candidate, in its own batch, is scrubbed if its row then still qualifies |
| `CloudScrub.WitnessesFor` | pkg/connector/cloud_backfill_store.go:5124-5137 | witnesses are read only if a candidate needs one, and every witness stands for its key |
| `CloudScrub.BatchIsStep` | pkg/connector/cloud_backfill_store.go:5274-5351 | a batch is a scrub step, so runs with scrubbing keep the run invariants |
| `CloudScrub.SplitCandidates` | pkg/connector/cloud_backfill_store.go:5274-5300 | forced GUIDs and delivery proofs are exactly those of the candidates, and proofs stand for their GUIDs |
| `CloudScrub.ScrubBridgedBodies` | pkg/connector/cloud_backfill_store.go:5094-5161 | prefilter, witnesses and batches scrub exactly the unscrubbed, old enough rows on no excluded portal that are deleted, permanently filtered, or delivered, readable and waiting for no chat, whatever the clock reads at each batch |
| `CloudScrub.GateRelaxes` | pkg/connector/cloud_backfill_store.go:4961-5009 | a later clock never closes the pending gate on a row |
| `CloudScrub.GateExact` | pkg/connector/cloud_backfill_store.go:4961-5009 | the gate is open on exactly the readable rows that need not wait: for their own chat when it is known on their portal, else for every chat of the portal |
| `CloudScrub.OwnChatHolds` | pkg/connector/cloud_backfill_store.go:4961-5351 | a batch never scrubs an undeleted row whose own chat is live, eligible, recent and not backfilled under any spelling |
| `CloudScrub.SiblingsDoNotRelease` | pkg/connector/cloud_backfill_store.go:4961-5351 | no change to chats the row does not name releases it |
| `CloudScrub.UnnamedRowWaits` | pkg/connector/cloud_backfill_store.go:4961-5351 | a row without a known chat waits for every pending chat of its portal |
| `CloudScrub.FinishingReleases` | pkg/connector/cloud_backfill_store.go:4961-5351 | finishing the backfill of a row's own chat lets a delivered row be scrubbed |
| `CloudScrub.WaitingEnds` | pkg/connector/cloud_backfill_store.go:4961-5351 | so does a hold that has passed the creation of that chat |
| `CloudTail.TailMissesLatest` | pkg/connector/cloud_backfill_store.go:3345-3356 | on any snapshot no row listLatestMessages returns, ties included, is in the tail |
| `CloudTail.TailPassKeepsLatest` | pkg/connector/cloud_backfill_store.go:5471-5578 | after a pass every portal lists the same newest rows, unscrubbed by it |
| `CloudTail.GrownTailMissesLatest` | pkg/connector/cloud_backfill_store.go:5508-5575 | a threshold read earlier stays safe as long as the portal's population only grows: no row that listLatestMessages would return now is below it |
| `CloudTail.ScrubPortalAmong` | pkg/connector/cloud_backfill_store.go:5508-5575 | so no chunk of the loop, each on the table it meets, touches such a row |
| `CloudTail.ShrunkPopulationExposes` | pkg/connector/cloud_backfill_store.go:5508-5575 | when the newest row goes after the threshold was read, the next one is listed and below it |
| `CloudTail.ScrubInChunks` | pkg/connector/cloud_backfill_store.go:5540-5575 | the chunk loop ends and scrubs exactly the rows selected at its start, whichever rows each LIMIT picks |
| `CloudTail.ScrubUnbridgedTail` | pkg/connector/cloud_backfill_store.go:5471-5578 | the pass scrubs exactly the tails given by the thresholds of the starting snapshot |
| `CloudTail.TailRowExactly` | pkg/connector/cloud_backfill_store.go:5471-5578 | the pass takes a row exactly when it is readable, unscrubbed, no reaction and old enough, its portal is not excluded and has more than keep readable rows that need not wait, and at least keep readable rows are newer |
| `CloudTail.ListLatestMeans` | pkg/connector/cloud_backfill_store.go:3345-3360 | the listing holds only live, contentful, readable rows of the portal, newest first, and leaves none out for an older one |
| `CloudRekey.BuildCanonical` | pkg/connector/cloud_backfill_store.go:2219-2247 | the index lists under each key the portals of the chats it names, in chat order |
| `CloudRekey.FirstOtherIsTarget` | pkg/connector/cloud_backfill_store.go:2261-2276 | the first differing indexed portal is the least one a scan over all chats would find |
| `CloudRekey.TargetExactly` | pkg/connector/cloud_backfill_store.go:2215-2276 | the target of a group portal is the least other portal on which a chat is filed whose group id or id is its UUID in any letter case; none without one |
| `CloudRekey.FindMoves` | pkg/connector/cloud_backfill_store.go:2261-2276 | a move for exactly the portals that have a target, to that target |
| `CloudRekey.MoveRows` | pkg/connector/cloud_backfill_store.go:2284-2311 | every row moves by one substitution of its original portal, so chains and swaps never compose |
| `CloudRekey.NormalizeGroupMessagePortalIDs` | pkg/connector/cloud_backfill_store.go:2215-2311 | the whole operation maps each row to its target portal and changes nothing else |
| `CloudRekey.RekeyIsStep` | pkg/connector/cloud_backfill_store.go:2284-2311 | a run is one reroute step of the store |
| `CloudRekey.SecondRunIdleExactly` | pkg/connector/cloud_backfill_store.go:2215-2311 | a second run changes nothing if and only if every row was left on a portal on which all chats named by its UUID are filed |
| `CloudRekey.SwapNeverSettles` | pkg/connector/cloud_backfill_store.go:2215-2311 | two chats filed under each other's UUID trade their rows on every run |
| `AttachmentCache.ScanReferences` | pkg/connector/cloud_backfill_store.go:4766-4827 | the scan loop computes the paged scan, each page on its own snapshot, failing on the first row that does not parse |
| `AttachmentCache.ReferencesAre` | pkg/connector/cloud_backfill_store.go:4766-4827 | the references of a store are the parsed attachment lists of its live messages, empty names apart |
| `AttachmentCache.StableRowIsSeen` | pkg/connector/cloud_backfill_store.go:4776-4827 | a row that stays put in every snapshot has its references counted, whatever changes around it |
| `AttachmentCache.QuietScan` | pkg/connector/cloud_backfill_store.go:4776-4827 | on an unchanging table the scan counts exactly the rows past its start, or fails |
| `AttachmentCache.PruneQuietly` | pkg/connector/cloud_backfill_store.go:4766-4880 | on a quiet store the prune deletes exactly the stale entries no live row refers to if and only if none is referred to only by rows at a negative timestamp, or at zero with an empty GUID; so always in range; and nothing when a row does not parse |
| `AttachmentCache.QuietPruneExact` | pkg/connector/cloud_backfill_store.go:4776-4796 | what the scan misses matters exactly for such entries |
| `AttachmentCache.InRangeSeesAll` | pkg/connector/cloud_backfill_store.go:4766-4827 | with nonnegative timestamps and nonempty GUIDs there is no such entry |
| `AttachmentCache.NegativeTimestampIsMissed` | pkg/connector/cloud_backfill_store.go:4776-4796 | a store of one live message, at timestamp -1, whose one referenced entry the prune deletes |
| `AttachmentCache.CacheTable.PruneOrphaned` | pkg/connector/cloud_backfill_store.go:4766-4880 | the sweep leaves exactly the fresh, referenced or unnamed entries, and a failed scan deletes nothing |
| `AttachmentCache.FreshEntrySurvives` | pkg/connector/cloud_backfill_store.go:4887-4908 | under concurrent writers an entry written or refreshed since the scan started is never deleted |
| `AttachmentCache.PruneAmong` | pkg/connector/cloud_backfill_store.go:4766-4908 | with every page of messages and every listing of the cache read from its own snapshot: run among any saves, the deletes spare every name referred to throughout the scan or written since it started; a finished prune deletes every name stale in all listings and referred to in no snapshot |
| `AttachmentCache.SweepAmong` | pkg/connector/cloud_backfill_store.go:4835-4880 | the sweep's deletes name only what a listing showed stale and the scan did not see, and, once a listing comes back short, everything stale throughout that it did not see |
| `AttachmentCache.NeverReferencedIsSwept` | pkg/connector/cloud_backfill_store.go:4839-4880 | a stale entry that no snapshot referred to is deleted, whatever changed meanwhile |
| `MacMessages.HistoryIsComplete` | imessage/mac/messages.go:78-89 | a history is exactly the rows older than the anchor, each once, strictly newest first by date and row id |
| `MacMessages.CursorIsNextSlice` | imessage/mac/messages.go:84-89 | resuming from the k-th row gives the slice after it |
| `MacMessages.HasBackfillableBefore` | imessage/mac/messages.go:625-650 | the paged probe finds a backfillable row if and only if one exists at or before the bound, save one at the bound with the largest row id |
| `ChatDbPaging.OldestOf` | pkg/connector/chatdb.go:565-570 | the scan returns the oldest position of a page |
| `ChatDbPaging.EncodeCursor` | pkg/connector/chatdb.go:556-587 | a GUID keeps its place, at its oldest message, exactly when its page was full |
| `ChatDbPaging.FetchPage` | pkg/connector/chatdb.go:173-202 | one fetch gives each GUID its resumed, anchored or empty page and the next cursor |
| `ChatDbPaging.SessionCompletesExactly` | pkg/connector/chatdb.go:549-622 | a session ends with every GUID's exact history if and only if every page boundary survives the cursor encoding, and then within one fetch more than the longest history |
| `ChatDbPaging.ChatDbSessionExact` | pkg/connector/chatdb.go:173-245 | the same over fixed chat.db data, any GUIDs, anchor and page size |
| `ChatDbPaging.EpochFreeResumes` | pkg/connector/chatdb.go:589-603 | data with no row at the Unix epoch always completes |
| `ChatDbPaging.EpochRowRestarts` | pkg/connector/chatdb.go:596-603 | a two-message history with the newer at the epoch never completes by one-message pages |
| `ChatDbPaging.EpochSessionFails` | pkg/connector/chatdb.go:549-622 | the same for a concrete chat.db of two rows and its queries |
| `ChatDbPaging.ExhaustedStaysExhausted` | pkg/connector/chatdb.go:549-554 | a GUID that has left the cursor delivers nothing more up to the end of the session, whatever the API answers |
| `ContactMerge.PreferredExisting` | pkg/connector/contact_merge.go:542-560 | the loop picks the best room of a candidate list |
| `ContactMerge.BestIs` | pkg/connector/contact_merge.go:542-560 | the best is the first populated room, else the first room |
| `ContactMerge.VariantsShape` | pkg/connector/contact_merge.go:404-437 | the given spelling first, the normal form included, none empty or repeated, extras only phone spellings |
| `ContactMerge.AmericanSpellings` | pkg/connector/contact_merge.go:421-427 | a North American number is tried with and without its country code |
| `ContactMerge.VariantsExactly` | pkg/connector/contact_merge.go:404-437 | the spellings tried are the one given, its normal form, and of a phone number the one without plus sign and the ones with and without country code; nothing else |
| `ContactMerge.AppendUnseen` | pkg/connector/contact_merge.go:562-582 | the candidates are the variants followed by the other matches: exactly both together, nothing twice, the additions in the order of the matches |
| `ContactMerge.PreferredSpelling` | pkg/connector/contact_merge.go:562-582 | the room of an identifier is the best one over those candidates |
| `ContactMerge.SpellingMeans` | pkg/connector/contact_merge.go:562-582 | the room of an identifier is one it reaches, with messages if any such room has some, and its own room if that has |
| `ContactMerge.FindWithFastPath` | pkg/connector/contact_merge.go:447-540 | the direct-lookup fast path returns what enumerating every room would |
| `ContactMerge.LivePortal` | pkg/connector/contact_merge.go:31-140 | live routing computes the shared policy; for a named contact of several handles, none the user's own, the portal is the room of the least phone handle, else the least address, among those with a populated room, else among those with a room, else that handle itself |
| `ContactMerge.FreshContactPortal` | pkg/connector/contact_merge.go:31-98 | with no room for any spelling of its handles, a contact's portal is its least phone handle, else its least address |
| `ContactMerge.UnmergedStays` | pkg/connector/contact_merge.go:66-98 | an identifier that is the user's own, or whose contact is unknown, unnamed, has one handle or one of the user's own, goes to a room it reaches or stays |
| `ContactMerge.ContactPortalIDs` | pkg/connector/contact_merge.go:351-384 | every handle of a contact once |
| `ContactMerge.KeyDeterminesHandles` | pkg/connector/contact_merge.go:337-347 | equal keys mean equal handle sets when no handle contains a bar |
| `ContactMerge.Canonicalize` | pkg/connector/contact_merge.go:589-652 | whatever order the groups come in, each entry of a named contact of several handles gets the portal of its group's first contact, described as for live routing, unless that is the user's own; any other entry keeps its own; all but the first entry of a merged group are skipped |
| `ContactMerge.LiveAgreesExactly` | pkg/connector/contact_merge.go:589-652 | for a named multi-handle contact without own handles, live routing and initial sync agree over every room table if and only if the first entry of its group has the same handles; handles are in normal form, which makes their spellings disjoint |
| `ContactMerge.NormalHandlesAreSeparate` | pkg/connector/contact_merge.go:404-437 | no spelling tried for one handle in normal form is another such handle |
| `ContactMerge.SyncThenLive` | pkg/connector/contact_merge.go:31-100 | over one room table, the portal of live routing is the entry's canonical portal when the first entry of its group has the same handles |
| `ContactMerge.BarFreeAgrees` | pkg/connector/contact_merge.go:589-652 | when no handle contains a bar it has, so both agree whatever rooms exist |
| `ContactMerge.OneEntryPerContact` | pkg/connector/contact_merge.go:644-649 | of the entries merged under one key at most one is kept |
| `ContactMerge.BarPartsSyncFromLive` | pkg/connector/contact_merge.go:337-347 | for any addresses a, b and c in order, an entry of a contact whose address is b, a bar and mailto:c draws the entry of the contact with a, b and c away from its only room |
| `ContactMerge.BarWitness` | pkg/connector/contact_merge.go:337-347 | the two choices differ at the addresses a, b and c |
| `FuzzyMatch.Levenshtein` | pkg/connector/command_contacts.go:331-359 | two rows, swapped, compute the recursive distance |
| `FuzzyMatch.DistanceMeansFewestEdits` | pkg/connector/command_contacts.go:330-359 | the distance is the least number of single-byte insertions, deletions and replacements |
| `FuzzyMatch.DistanceAtLeastLengthDifference` | pkg/connector/command_contacts.go:304-309 | the distance is at least the difference of the lengths |
| `FuzzyMatch.ZeroMeansEqual` | pkg/connector/command_contacts.go:331-334 | the distance is zero exactly for equal words |
| `FuzzyMatch.AnyNameWordFuzzyMatches` | pkg/connector/command_contacts.go:297-316 | with its shortcut and length prefilter the matcher accepts exactly what the unfiltered rule accepts |
| `FuzzyMatch.FuzzyMeans` | pkg/connector/command_contacts.go:297-328 | a query matches what it begins; from three bytes on also what one edit leads to, and from six on two edits |
| `FuzzyMatch.ContactMatchScore` | pkg/connector/command_contacts.go:267-294 | exact when the query occurs in the name or the nickname, else fuzzy when it has words and each fuzzily matches a word of either, else none |
| `CarrierRoute.CheckLog.Reserve` | pkg/connector/carrier_route.go:308-326 | in-place filtering and appending compute the filtered log and the decision |
| `CarrierRoute.HourlyCeiling` | pkg/connector/carrier_route.go:296-326 | in every run with a nondecreasing clock any half-open hour contains at most sixty grants |
| `CarrierRoute.LogIsHistory` | pkg/connector/carrier_route.go:308-326 | filtering never forgets a grant that still counts |
| `CarrierRoute.Note` | pkg/connector/carrier_route.go:255-266 | noting stores the entry and drops exactly the expired ones |
| `CarrierRoute.Router.CheckCarrierRoute` | pkg/connector/carrier_route.go:126-219 | the gates, memos, ceiling and lookup compute the decision and the new memos |
| `CarrierRoute.LookupsAnHourApart` | pkg/connector/carrier_route.go:152-219 | in sequential runs two lookups for one portal and target are at least an hour apart |
| `CarrierRoute.RouteIsBackedByLookup` | pkg/connector/carrier_route.go:152-219 | a message leaves over iMessage only if its own lookup, or one noted within the hour, found the target reachable |
| `CarrierRoute.RoutesExactly` | pkg/connector/carrier_route.go:126-219 | in sequential runs a message leaves over iMessage if and only if it is eligible and its target was found reachable within the hour or is by a lookup now; and a lookup is made if and only if no answer is recent, fewer than sixty were granted in the hour, the client is connected and the send not cancelled |
| `CarrierRoute.MemosAreAnswers` | pkg/connector/carrier_route.go:221-266 | the two memos hold exactly the answers of the past hour |
| `CarrierRoute.SendsUnderCeiling` | pkg/connector/carrier_route.go:126-219 | the router's log is that of its reservations, so a run of sends through all the gates keeps the hourly ceiling |
| `UnitFile.ExistingUnitIdentity` | pkg/cli/cli.go:982-1015 | the line loop computes the identity, the last setting winning |
| `UnitFile.ReadUndoesPrintExactly` | pkg/cli/cli.go:901-1015 | reading a printed unit gives back owner and data home if and only if they have no line break and bare ends |
| `UnitFile.LastOwnerWins` | pkg/cli/cli.go:982-1015 | in any unit the last owner set is read, blanks around and inside the setting not counting |
| `UnitFile.SpacedSetting` | pkg/cli/cli.go:982-1015 | blanks at both ends of a setting and around its equals sign do not count |
| `UnitFile.CommentsSayNothing` | pkg/cli/cli.go:987-990 | a comment of either kind says nothing, whatever it contains |
| `UnitFile.ManagedAnywhere` | pkg/cli/cli.go:956-962 | a unit is owned when the marker stands anywhere in it |
| `UnitFile.ReinstallReadsUnit` | pkg/cli/cli.go:1030-1077 | over a written unit, resolution ignores the caller |
| `UnitFile.ReinstallIsFixpointExactly` | pkg/cli/cli.go:1030-1077 | reinstalling rewrites byte-identical content under every caller if and only if the data home (and owner in system scope) has bare ends |
| `UnitFile.TrailingBlankIsDropped` | pkg/cli/cli.go:982-1015 | a unit whose data home is "/d " is rewritten with "/d" |
| `UnitFile.InstallThenReinstall` | pkg/cli/cli.go:1030-1077 | a fresh install followed by any number of reinstalls by anyone leaves the first content |
| `UnitFile.FreshInstall` | pkg/cli/cli.go:1055-1140 | a fresh install is refused without an absolute data home; else its unit, read by sections, runs the bridge in the data home's directory, in system scope as the sudo user, else the current user, else root and for the multi-user target, in user scope as nobody in particular and for the default target |
| `UnitFile.HalfIdentity` | pkg/cli/cli.go:1030-1054 | an owned unit that names an owner but no data home is left alone; one that names neither takes the caller's |

## Left out

- Malformed Ogg or CAF beyond the parsers' own error paths, and memory limits: packets are below 255*255 bytes, sizes and frame totals stay below 2^63, as the writers assume.
- File names and MIME types in the audio conversion: parameters say whether the input is Ogg or CAF.
- SQL errors, transactions and context cancellation: statements succeed; every statement is one atomic step.
- Schema migrations, chat columns other than those the WHERE clauses read, and the operations that heal or re-key single rows, which are one general reroute step.
- CloudStore.Store.DeleteLocalChatByPortalID: its four statements run without other writers in between; interleaved, each is one portal-delete step of the runs.
- CloudScrub.ScrubBridgedBodies: exactness is for a quiet table; ScrubPass states what holds among other writers.
- Case folding is ASCII, as SQL's is; GUIDs outside ASCII are not modelled.
- CloudRehydrate.RehydrateProtocol: exact outcomes are for interleaved upserts; other interleaved steps only keep the run invariants.
- JSON of attachments and cursors: a parser parameter and the identity on maps; legacy cursor forms and messages at Go's zero time are not modelled.
- The wildcard meaning of an empty chat GUID in the chat.db queries, forward fetches, deduplication and the drop of deleted messages after paging.
- The probe for backfillable content with a cap, which reads a single page.
- ChatDbPaging.EpochRowRestarts: a session is a caller that repeats the same anchor at every fetch.
- Messages that disappear while a page is read, and growing chat.db data during a session.
- ContactMerge: identifier, phone and address normalisers and contact lookup are parameters; lookup errors are not modelled; one room per portal id.
- FuzzyMatch.ContactMatchScore: the word splitter and lower-casing are parameters.
- CarrierRoute.Router.CheckCarrierRoute: classification, target picking, the pacing gate and the lookup are inputs of the send; concurrent sends for one key, which may look up twice, are not in the hour-apart law.
- UnitFile: joining a path is a parameter; launchd property lists, systemctl calls and scope selection are not modelled.
- Matrix and Apple network calls, the Rust library, media conversion, commands and configuration.
