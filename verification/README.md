# Verified models of bandix-plus

This project models the stateful core of bandix-plus, a traffic monitor for routers, and proves what that core is for.
`dafny verify dfyconfig.toml` checks all of it.

| file | what it models |
|---|---|
| `Bytes.dfy`, `Buckets.dfy` | machine integers, saturating sums, byte orders, and one aggregated hour of traffic |
| `Fnv.dfy`, `RingCodec.dfy`, `RingFile.dfy`, `RingLayout.dfy` | the checksum, the ring record and header formats, a ring file as a byte string that means "the last N records", and where each of its bytes stands |
| `RingCrash.dfy`, `RingStore.dfy`, `RingNames.dfy` | what an append leaves when it stops after any byte, the directory of ring files as an object that records every such state, and the file names |
| `Histogram.dfy`, `Hours.dfy`, `DailyMerge.dfy`, `Restart.dfy` | the in-memory hours, the samples each of them holds, their daily merge, and all of it together with the rings across restarts |
| `DnsName.dfy`, `DnsMessage.dfy`, `DnsPacket.dfy`, `DnsCapture.dfy` | name decompression, DNS messages, the packet walks of userspace and of the kernel filter, and packets as they are sent |
| `DnsLog.dfy`, `DnsTracker.dfy`, `DnsExchange.dfy`, `DnsReply.dfy` | the query log as a plain list, the monitor object with its index and caches, and which messages belong together, in the log and on the wire |
| `Netlink.dfy`, `Ctnetlink.dfy` | the two netlink cursors and the connection-tracking attributes |
| `FlowTable.dfy`, `FlowWire.dfy`, `FlowLayout.dfy` | the two-map flow table against the kernel's own table, from events, dumps and bytes, and an event written out byte by byte |
| `EcmCounters.dfy`, `EcmAttribution.dfy`, `EcmPlaces.dfy`, `Neighbours.dfy` | offload counters, where their bytes are booked, the same in terms of address ranges and sums of bytes, and who owns an address |

Each imperative part is a class or a method proved against a function on values; the main results are lemmas about
those functions. Ring files are compared with the sequence of their records, the histogram with an unbounded ledger,
the DNS monitor with a list that is scanned from the front, the flow table with the kernel's table, the offload
counters with a record of everything ever counted.

## What the code does not promise

- The header check accepts an empty ring whose write position is not zero, and the next append makes such a ring
  unreadable unless it converts the ring first. `RingFile.InPlaceAppendIff` and `RingFile.AppendKeepsNewest` give the
  exact conditions, `RingFile.DisplacedEmptyRing` such a ring; rings this program writes never are.
- Overwriting the oldest record of a full ring has a stop after which nothing in the ring is read any more, unless the
  new record equals the old one (`RingCrash.OverwriteCanLoseRingIff`); `RingCrash.FullRingIsLost` is such a ring and
  stop, and `RingCrash.TornOverwriteIff` says for every single stop whether the ring survives it.
- Writing the header has such a stop as well, in every ring but a full one of one slot
  (`RingCrash.HeaderCanLoseRingIff`; `RingCrash.TornHeaderIff` for every single stop).
- A ring file whose name is an odd number of characters but an even number of bytes makes the loader read past the
  name's characters (`RingNames.DecodeCrashesIff`). Names the program writes never are.
- An announced flow whose tuple another identifier still holds is not mirrored, and a late DELETE of the old identifier
  then removes the live flow, until the next dump (`FlowTable.LateDeleteTakesLiveFlow`). `FlowTable.InsertMirrorsIff`,
  `FlowTable.DeleteTakesOnlyItsOwnIff` and `FlowTable.DeleteMirrorsIff` say exactly when each is harmless.
- A message whose last alignment bytes are missing is read, and then an error is reported, unlike an attribute in the
  same position; exactly when any are missing (`Netlink.UnpaddedFrameIsReported`).
- An offload delta whose owner has no device record is booked nowhere: `EcmAttribution.BookedNowhereIff` and
  `EcmAttribution.NoRecordIff` give the exact condition and `EcmAttribution.OwnerWithoutRecord` an instance.
- The name reader limits the labels to 255 octets without counting the final zero byte, one more than RFC 1035 allows:
  `DnsName.ReaderIsRfc1035` states the code's limit, `DnsName.LongestNameIsOneTooLong` and `DnsName.SuchNameExists` show
  that it is reached.
- A pruned DNS cache can take a duplicate for a new message: exactly when more than twice `max_records` keys are within
  the last 500 ms and one of them is younger than that (`DnsTracker.PruningIsHarmlessIff`).
  `DnsTracker.DuplicateCanBeLogged` is a history in which this happens. What is logged and answered is still as
  `DnsTracker.LogIsNewestLetThrough` and `DnsTracker.IndexAgreesWithScan` say.

## Model

| member | source | states |
|---|---|---|
| `Fnv.Checksum32` | bandix-plus/src/persistence.rs:717-724 | The checksum loop computes the FNV-1a fold of its input, byte by byte from the offset basis. |
| `Fnv.PrimeIsInvertible` | bandix-plus/src/persistence.rs:717-724 | Multiplying by the FNV prime modulo 2^32 can be undone for every value, so no step loses information. |
| `Fnv.RoundInjective` | bandix-plus/src/persistence.rs:717-724 | Two checksum steps that give the same hash had equal hashes before exactly when they absorbed equal bytes. |
| `Fnv.OneByteChangesChecksum` | bandix-plus/src/persistence.rs:717-724 | Changing exactly one byte of any input, at any position, changes its checksum. |
| `RingCodec.EncodeRingRecord` | bandix-plus/src/persistence.rs:585-625 | The encoder that pushes word after word writes exactly the specified 220 bytes with the checksum last. |
| `RingCodec.DecodeRingRecord` | bandix-plus/src/persistence.rs:627-715 | The decoder that advances an offset agrees with the specified reading of both record versions, errors included. |
| `RingCodec.RecordRoundTrip` | bandix-plus/src/persistence.rs:585-715 | A byte string decodes (as version 2) to a given hour if and only if it is that hour encoded: all 27 fields survive and no second encoding exists. |
| `RingCodec.LegacyRecordSurvives` | bandix-plus/src/persistence.rs:646-682 | A version 1 record reads as one sample with the same times and byte totals, and finalizing it again keeps average, maximum and minimum of every rate. |
| `RingCodec.DamagedRecordRejected` | bandix-plus/src/persistence.rs:627-640 | A decodable record of either version in which exactly one byte is changed never decodes. |
| `RingFile.HeaderRoundTrip` | bandix-plus/src/persistence.rs:529-583 | A valid header is read back field by field from the bytes written for it. |
| `RingFile.DamagedHeaderRejected` | bandix-plus/src/persistence.rs:545-561 | An accepted header with exactly one of its first 32 bytes changed is never accepted. |
| `RingFile.RingIndex` | bandix-plus/src/persistence.rs:398-406 | The wrapped slot index is the sum reduced by the slot count at most once. |
| `RingFile.SlotInFile` | bandix-plus/src/persistence.rs:398-411 | Every slot of a counted record lies inside a file whose size passed the bounds, so the per-record end check never fires. |
| `RingFile.ReadBackLimited` | bandix-plus/src/persistence.rs:375-426 | Reading with a limit gives the newest records of the full reading, in the same order. |
| `RingFile.RebuiltReadsBack` | bandix-plus/src/persistence.rs:456-483 | A ring rebuilt from at most `cap` records reads back exactly those records, under a header of that capacity. |
| `RingFile.PutRecordSlots` | bandix-plus/src/persistence.rs:354-367 | One in-place append stores the new record in its slot, leaves every other readable slot as it was, and advances the header. |
| `RingFile.InPlaceAppend` | bandix-plus/src/persistence.rs:354-367 | Appending in place to a well-placed readable ring shows the last `slot_count` of the old records and the new one, and keeps it well placed. |
| `RingFile.InPlaceAppendIff` | bandix-plus/src/persistence.rs:354-367 | For any accepted readable ring the append behaves so if and only if the ring is not an empty one with a displaced write position. |
| `RingFile.DisplacedEmptyRing` | bandix-plus/src/persistence.rs:501-517 | A concrete header the size check accepts (no valid records, write position 1) after which one append makes the ring unreadable. |
| `RingFile.OpenKeepsNewest` | bandix-plus/src/persistence.rs:428-485 | Opening any readable ring, whatever its version and capacity, keeps the newest `cap` records in a version 2 ring of that capacity; the result starts at slot 0 when empty unless the ring was an empty one of that very kind and already displaced. |
| `RingFile.AppendKeepsNewest` | bandix-plus/src/persistence.rs:349-369 | Whatever version and capacity the readable ring has, an append with capacity `cap` leaves the newest `cap` of old records plus the new one if and only if the ring is not an empty, displaced one of version 2 and that very capacity. |
| `RingFile.AppendsRefineNewest` | bandix-plus/src/persistence.rs:349-369 | Over every run of appends, each with its own capacity, reading back equals folding "last c of s + [r]" over the run; only the first append asks that the ring is not such a displaced one. |
| `RingLayout.PublishedSum` | bandix-plus/src/persistence.rs:717-724 | The checksum is the published 32-bit FNV-1a: from the offset basis, each byte flips binary digits of the sum and then multiplies it by the prime. |
| `RingLayout.RecordLayout2` | bandix-plus/src/persistence.rs:585-715 | 220 bytes read as a given hour if and only if every field stands at its offset, lowest byte first, and the last four bytes are the checksum of the rest. |
| `RingLayout.RecordLayout1` | bandix-plus/src/persistence.rs:646-682 | 180 bytes of version 1 read as a given hour if and only if its fields stand at their offsets, with one sample and each average as the sum. |
| `RingLayout.HeaderLayout` | bandix-plus/src/persistence.rs:529-583 | 64 bytes are accepted as a given header if and only if they begin with the magic, hold the five numbers at their offsets, have the right checksum, and name a version with its record size, a position inside the ring and no more records than slots. |
| `RingLayout.FileLayout` | bandix-plus/src/persistence.rs:375-426 | A file has a given header and shows given records if and only if its first 64 bytes are that header, its size is one the header allows, and each record stands in the slot that was written that many appends ago. |
| `RingLayout.NoHeaderOpens` | bandix-plus/src/persistence.rs:428-485 | Opening any file without an acceptable header gives an empty ring. |
| `RingLayout.HeaderOpens` | bandix-plus/src/persistence.rs:428-485 | For any file with an acceptable header: when opening fails, when it starts over, when it leaves the file alone, and which records a conversion keeps, unreadable ones included. |
| `RingStore.Store.QuarantineBadFile` | bandix-plus/src/persistence.rs:773-785 | An unreadable ring is renamed aside with its bytes untouched; apart from a file that already has that quarantine name, which is replaced, nothing else changes. |
| `RingStore.Store.ReadRingRecordsLimited` | bandix-plus/src/persistence.rs:375-426 | The sequential reader, whose only extra seek is the one at slot 0, returns exactly what slot-by-slot reading gives, or quarantines the file and returns nothing. |
| `RingStore.Store.OpenOrCreateRing` | bandix-plus/src/persistence.rs:428-485 | Opening succeeds exactly when specified and no due conversion finds its temporary name taken, touches only its own names, and every state it can be stopped in is safe for the old content. |
| `RingStore.Store.AppendRingRecordWithCapacity` | bandix-plus/src/persistence.rs:349-369 | The append ends in the specified file or fails exactly where opening does; every state it can be stopped in is known byte by byte, and for a ring that is not full, each one before the header write reads as before and is one the next start recovers from. |
| `RingCrash.TornAppendReadsSame` | bandix-plus/src/persistence.rs:354-367 | Any number of bytes of the new record written into a ring that is not full changes nothing that is read. |
| `RingCrash.TornOverwriteIff` | bandix-plus/src/persistence.rs:354-367 | After `k` bytes of the new record a full ring is readable if and only if those bytes and the rest of the oldest record form a record, and then that is all that has changed. |
| `RingCrash.OverwriteCanLoseRingIff` | bandix-plus/src/persistence.rs:354-367 | Overwriting has a stop that makes the whole ring unreadable if and only if the new record differs from the one it overwrites. |
| `RingCrash.FirstByteLosesRing` | bandix-plus/src/persistence.rs:354-367 | If the start times of the two hours differ in their lowest byte, that stop comes after the first byte. |
| `RingCrash.FullRingIsLost` | bandix-plus/src/persistence.rs:354-367 | A ring of one slot that this program writes and reads back, and a record whose first byte makes it unreadable. |
| `RingCrash.TornHeaderIff` | bandix-plus/src/persistence.rs:354-367 | After the record and `k` bytes of the new header the ring is readable if and only if the mixture of old and new header has its checksum right and does not count some, but not all, slots with another write position; a mixture never counts a slot that cannot be read. |
| `RingCrash.OldHeaderReads` | bandix-plus/src/persistence.rs:354-367 | While the mixture still says what the old header said, the ring shows what it showed once the record was written. |
| `RingCrash.NextHeaderReads` | bandix-plus/src/persistence.rs:354-367 | As soon as the mixture says what the new header says, the ring shows the last `slot_count` of the old records and the new one. |
| `RingCrash.HeaderCanLoseRingIff` | bandix-plus/src/persistence.rs:354-367 | Writing the header has a stop that makes the ring unreadable if and only if it is not a full ring of one slot. |
| `RingCrash.WholeAppend` | bandix-plus/src/persistence.rs:354-367 | The last of these states is the completed append. |
| `RingCrash.LeftBehindReopens` | bandix-plus/src/persistence.rs:428-485 | Whatever an interrupted opening, or an append stopped before its header write in a ring that is not full, leaves behind, the next start opens it with any capacity and finds the newest records. |
| `RingStore.MigrationStep` | bandix-plus/src/persistence.rs:456-483 | Any state between the start of a conversion and its rename still holds the old ring, and the state after the rename holds the complete new one. |
| `RingStore.InterruptedOpenKeepsRecords` | bandix-plus/src/persistence.rs:428-485 | Wherever opening, resizing or migrating stops, the path still shows every old record or the newest `cap` of them. |
| `RingNames.DecodeComponentLoop` | bandix-plus/src/persistence.rs:757-771 | The decoding loop agrees with the specified pairwise reading, including rejected pairs and the out-of-bounds read. |
| `RingNames.PairWritten` | bandix-plus/src/persistence.rs:749-755 | A byte is written as its two lower-case hexadecimal digits, the high one first. |
| `RingNames.DigitRead` | bandix-plus/src/persistence.rs:757-771 | A character counts as a digit if and only if it is that hexadecimal digit in either case. |
| `RingNames.ComponentRoundTrip` | bandix-plus/src/persistence.rs:749-771 | An interface name comes back from its file name exactly when it is not empty. |
| `RingNames.DecodeCrashesIff` | bandix-plus/src/persistence.rs:757-771 | Decoding a file name reads past its characters exactly when they are odd in number, even in UTF-8 size, and otherwise all hexadecimal pairs. |
| `RingNames.OneAccentedLetterCrashes` | bandix-plus/src/persistence.rs:757-771 | A file called with a single two-byte letter is such a name. |
| `RingNames.MacRoundTrip` | bandix-plus/src/persistence.rs:730-747 | A MAC address comes back unchanged from a file name exactly when it is six lower-case hexadecimal pairs joined by colons. |
| `RingNames.DeviceNameRoundTrip` | bandix-plus/src/persistence.rs:208-215 | A device ring is loaded for the very interface and MAC it was written for when the interface name is not empty, and set aside when it is. |
| `RingNames.DeviceNamesAreDistinct` | bandix-plus/src/persistence.rs:208-215 | Two device series with the same file name are the same series. |
| `Histogram.RestoreAllKeepsNewest` | bandix-plus/src/monitor.rs:688-701 | Restoring records one by one with trimming keeps the newest `cap` of them. |
| `Histogram.HistogramHistory.IngestSnapshotCollectCompleted` | bandix-plus/src/monitor.rs:646-686 | One snapshot drives the maps and the emitted hours as the per-row specification says, including the flush of devices that are offline; `Hours` says which hour each row is filed under. |
| `Histogram.HistogramHistory.RestoreBuckets` | bandix-plus/src/monitor.rs:688-701 | Restoring a ring changes only its own series and leaves the newest hours in order. |
| `Histogram.HistogramHistory.CumulativeFromCompleted` | bandix-plus/src/monitor.rs:901-924 | Totals over the completed hours, whatever order the maps are walked in. |
| `Histogram.HistogramHistory.CumulativeFromAll` | bandix-plus/src/monitor.rs:926-944 | Totals over completed and open hours for every series that has either, whatever order the maps are walked in. |
| `Histogram.LedgerTracks` | bandix-plus/src/monitor.rs:726-826 | Over every run of samples, restored hours and forgotten devices each kept hour holds the exact bytes of that hour, saturated once, and so does the open hour. |
| `Histogram.LedgerConserves` | bandix-plus/src/monitor.rs:726-826 | The exact ledger loses nothing: trimmed, kept and open bytes add up to all bytes ever sampled or restored. |
| `Histogram.BytesConserved` | bandix-plus/src/monitor.rs:901-944 | After any run of samples and restored hours a series reports min(all its bytes less those in trimmed hours, 2^64 - 1), independent of hour boundaries. |
| `Histogram.NothingTrimmedEarly` | bandix-plus/src/monitor.rs:946-950 | After any run exactly min(hours completed, capacity) hours are kept, and no byte is trimmed while no more hours were completed than the capacity. |
| `Histogram.SnapshotIsItsRows` | bandix-plus/src/monitor.rs:646-686 | Ingesting a snapshot is ingesting its rows one after the other, so every statement over runs holds for runs of snapshots. |
| `Histogram.RestoringIsItsRecords` | bandix-plus/src/monitor.rs:688-701 | Restoring a ring is restoring its records one after the other. |
| `Hours.SampleGoesToItsHour` | bandix-plus/src/monitor.rs:726-826 | After any sample the open hour starts where the clock says; the hour before is completed exactly when it is another one, and a new hour has exactly the start and end of the clock and this one sample. |
| `Hours.OfflineRow` | bandix-plus/src/monitor.rs:659-676 | An offline device without traffic gets no sample; its open hour is completed and closed exactly when it ended before the snapshot. |
| `Hours.HoursHoldTheirSamples` | bandix-plus/src/monitor.rs:726-826 | Over every run whose rows of a series come in order, the open hour is that of the last sample, and it and every completed hour not restored from disk hold exactly the samples of that hour: their number, the sums of bytes and rates, the largest and the smallest rate. |
| `Hours.SampledHoursAreThere` | bandix-plus/src/monitor.rs:726-826 | Over every run, with any clock, each hour that was sampled is open or completed as long as no more hours were completed than are kept. |
| `Hours.CompletedHourIsWritten` | bandix-plus/src/monitor.rs:581-594 | The hour handed to the ring writer holds all samples of its hour, with the average rounded down and the maximum as 95th percentile. |
| `DailyMerge.MergeHourlyToDaily` | bandix-plus/src/monitor.rs:952-1005 | The daily list is strictly increasing, has exactly the days of the hourly list, each with the end, counters, samples and rates of its hours taken together, and the same overall totals. |
| `DailyMerge.DayIsItsHours` | bandix-plus/src/monitor.rs:952-1005 | A day's bucket ends with the day, saturates the exact sums of its hours once, counts their samples, and has the largest maximum and the smallest counted minimum of their rates. |
| `DailyMerge.SortedByStart` | bandix-plus/src/monitor.rs:1002-1004 | The map of days becomes a strictly increasing list of exactly its entries. |
| `DailyMerge.DaysCoverHours` | bandix-plus/src/monitor.rs:952-1005 | Summing day by day over all days counts every hour exactly once. |
| `DailyMerge.DailyTotalsEqualHourly` | bandix-plus/src/monitor.rs:952-1005 | A daily merge reports the same saturated byte totals as the hourly list it was made from. |
| `Restart.RingsStayInStep` | bandix-plus/src/monitor.rs:646-686 | Over every run of snapshots, removals and restarts, each restart with its own capacity and from any files an interrupted opening or append can leave, the ring of a series shows exactly its completed hours, finalized, and no more than the capacity. |
| `Restart.RestartReproducesMemory` | bandix-plus/src/persistence.rs:229-263 | After any such run, reading a series' ring into an empty history with any capacity gives the newest completed hours held in memory, finalized, and all of them with the same byte totals if they fit. |
| `Restart.RebootKeepsNewest` | bandix-plus/src/monitor.rs:646-686 | A restart from what a stopped process left shows the newest hours it had completed, cut to the new capacity and at most to the one it was working with. |
| `Restart.LoadSeries` | bandix-plus/src/persistence.rs:235-263 | The start-up path (open or migrate, read, restore) puts exactly the specified hours into its own series and leaves all others alone. |
| `DnsLog.LogIsNewestAccepted` | bandix-plus/src/dns.rs:258-311 | In the list model, over every run of captured messages, the log lists the newest `max_records` accepted queries in order. |
| `DnsLog.AcceptedAreSpaced` | bandix-plus/src/dns.rs:264-268 | In the list model, with timestamps that never run backwards, accepted queries of one key are at least 500 ms apart. |
| `DnsLog.ResponseTimesBounded` | bandix-plus/src/dns.rs:313-344 | In the list model every answer recorded in a run took at most 30000 ms. |
| `DnsLog.AnsweredOnce` | bandix-plus/src/dns.rs:313-344 | In the list model, over every run, a query once answered is shown with that answer after every later message, until it is evicted. |
| `DnsLog.ReloadKeepsRecords` | bandix-plus/src/dns.rs:569-609 | Saving and reloading keeps every record and answer in order, marks unanswered ones, and is idempotent. |
| `DnsExchange.ReloadedRecord` | bandix-plus/src/dns.rs:569-609 | A reloaded record has the question, times, addresses and records of the saved one and its response code, or NO_RESPONSE if it had neither code nor response time, and no response can answer it. |
| `DnsExchange.KeysAgreeIff` | bandix-plus/src/dns.rs:189-203 | Two messages share a match key if and only if they have the same client address and port (source of a query, destination of a response), id and protocol, and the same name and type up to the case of letters. |
| `DnsExchange.QueryIsListedIff` | bandix-plus/src/dns.rs:258-311 | In every run of the list model a query is dropped if and only if the last accepted query that agrees in all six fields came less than 500 ms before; otherwise it is listed last, unanswered. |
| `DnsExchange.ResponseAnswersFirst` | bandix-plus/src/dns.rs:313-344 | In every run of the list model a response changes exactly the first live, unanswered entry, at most 30 s old, of the client it is sent to and of its question, to which it gives its answer and the elapsed milliseconds; unless one of the same exchange answered less than 500 ms before. |
| `DnsTracker.PruneDedupeCache` | bandix-plus/src/dns.rs:612-626 | Pruning leaves a small cache alone, drops entries outside the window, and never leaves more than the limit. |
| `DnsTracker.PruningIsInvisible` | bandix-plus/src/dns.rs:612-626 | While the hard cap does not fire, the pruned cache still decides every later duplicate as the full history would. |
| `DnsTracker.PruningIsHarmlessIff` | bandix-plus/src/dns.rs:612-626 | With no stamp in the future, the pruned cache decides every later message as the unpruned one would, whichever entries the map yields first, if and only if no more keys than the limit are within the window or none of them can still make a duplicate. |
| `DnsTracker.AgreeingCacheDecides` | bandix-plus/src/dns.rs:260-268 | A pruned cache that agrees with the full history accepts and drops the same messages. |
| `DnsTracker.EvictedIsAtFront` | bandix-plus/src/dns.rs:362-379 | An evicted waiting id is always at the front of its queue, so the scan that removes it elsewhere removes nothing. |
| `DnsTracker.EvictKeepsIndex` | bandix-plus/src/dns.rs:362-379 | Evicting drops exactly the oldest entry from the log and exactly its id from the index, and keeps both well formed. |
| `DnsTracker.AnswerIsFirstWaiting` | bandix-plus/src/dns.rs:313-344 | With answered or expired entries no longer queued, the query chosen through the index is the first one in arrival order that waits for this key and is at most 30 s old; only that entry changes. |
| `DnsTracker.TrimmedIsNewest` | bandix-plus/src/dns.rs:308-311 | Evicting down to the limit leaves exactly the newest entries, with the index still exact. |
| `DnsTracker.RecordCount` | bandix-plus/src/dns.rs:308-311 | The record map has exactly as many entries as the order list. |
| `DnsTracker.DnsMonitor.Ingest` | bandix-plus/src/dns.rs:258-360 | Every message keeps order, index, caches and answers consistent; a response never adds, drops or reorders entries; a query, and as long as time never ran backwards a response too, changes the log exactly as a scan from the front would, whether or not the hard cap ever fired; and while it has not, the log is that of the list model. `DnsExchange` says, field by field, which queries are dropped and which entry a response answers. |
| `DnsTracker.ReachableIsFit` | bandix-plus/src/dns.rs:258-360 | In every reachable state, whatever the timestamps, order list, records and index agree and every size is within its limit. |
| `DnsTracker.IndexAgreesWithScan` | bandix-plus/src/dns.rs:313-344 | In every reachable state with timestamps that never ran backwards, however often the hard cap fired, a message changes the log as a linear scan for the first live, unanswered query of its key at most 30 s old would. |
| `DnsTracker.LogIsNewestLetThrough` | bandix-plus/src/dns.rs:258-311 | In every reachable state, whatever the timestamps, the log lists the newest `max_records` of the restored records and the queries the monitor's own cache let through, in order. |
| `DnsTracker.AnsweredAtMostOnce` | bandix-plus/src/dns.rs:313-344 | In every history a record once answered keeps its answer while it is listed, and its id never returns: no query is answered twice. |
| `DnsTracker.QuietHistoryIsIdeal` | bandix-plus/src/dns.rs:258-360 | From a fresh monitor, chronological histories that keep the hard cap out of play show exactly the log of the list model. |
| `DnsTracker.DuplicateCanBeLogged` | bandix-plus/src/dns.rs:258-311 | With `max_records` 1, three queries of different keys at one time and then the first again: a reachable history in which all four are logged, although the unpruned history accepts three. |
| `DnsExchange.DroppedQueryWasSeen` | bandix-plus/src/dns.rs:258-311 | In every history of the monitor, whatever timestamps and hard cap do, a query is dropped only if one that agrees in all six fields was let through less than 500 ms before; otherwise it is listed last. |
| `DnsExchange.ResponseAnswersItsQuery` | bandix-plus/src/dns.rs:313-344 | In every history a response changes at most one entry: a live, unanswered query, at most 30 s old, of the client the response is sent to, with the same id, protocol and question up to letter case; it gets this response and its time. |
| `DnsExchange.ResponseAnswersFirstInTime` | bandix-plus/src/dns.rs:313-344 | If timestamps never ran backwards, it changes exactly the first such entry, unless one of the same exchange answered a query less than 500 ms before. |
| `DnsTracker.DnsMonitor.EvictOldest` | bandix-plus/src/dns.rs:362-379 | Pops the oldest id, its record and its place in the index, and nothing else. |
| `DnsTracker.DnsMonitor.MatchResponse` | bandix-plus/src/dns.rs:313-344 | Drops expired ids, takes the next waiting one and stores the answer in its record. |
| `DnsTracker.DnsMonitor.RestoreRecords` | bandix-plus/src/dns.rs:576-609 | Start-up lists the newest saved records in order with fresh ids; none of them waits for a response. |
| `DnsTracker.DnsMonitor.RecordsForPersistence` | bandix-plus/src/dns.rs:569-574 | The saved records are those of the log in arrival order. |
| `DnsName.ReadDnsName` | bandix-plus/src/dns.rs:1094-1133 | The bounded loop terminates on every byte string, stays in bounds, computes the recursive resolution, and returns a position with offset < next <= packet length. |
| `DnsName.ReaderIsRfc1035` | bandix-plus/src/dns.rs:1094-1133 | The reader yields a name if and only if section 4.1.4 of RFC 1035 gives it that meaning with at most 16 pointers and 255 label octets. |
| `DnsName.NameEndInBounds` | bandix-plus/src/dns.rs:1094-1133 | A name that RFC 1035 gives a meaning ends inside the packet, behind its start, however many pointers it takes. |
| `DnsName.PlainNameInverts` | bandix-plus/src/dns.rs:1094-1133 | Reading inverts the label encoding of section 3.1 of RFC 1035 wherever it stands in a packet. |
| `DnsName.CompressedNameInverts` | bandix-plus/src/dns.rs:1094-1133 | Labels followed by a pointer read as those labels followed by the name pointed at; the name ends behind the pointer. |
| `DnsName.PointerLoopRejected` | bandix-plus/src/dns.rs:1094-1133 | A pointer to itself has no meaning and is rejected. |
| `DnsName.LongestNameIsOneTooLong` | bandix-plus/src/dns.rs:1094-1133 | Every name of 255 label octets is accepted, although it takes 256 octets on the wire. |
| `DnsName.SuchNameExists` | bandix-plus/src/dns.rs:1094-1133 | There is a name of exactly 255 label octets. |
| `DnsMessage.ParseDnsMessage` | bandix-plus/src/dns.rs:988-1092 | The question loop, the answer loop and the record cases compute exactly the specified reading and stay in bounds on every byte string. |
| `DnsMessage.ReadTexts` | bandix-plus/src/dns.rs:1057-1070 | The character-string loop collects the complete strings and drops a truncated one with all that follows. |
| `DnsMessage.ListInverts` | bandix-plus/src/dns.rs:1013-1077 | A reader that inverts an item's encoding wherever it stands inverts a list of them and every prefix of it. |
| `DnsMessage.MessageRoundTrip` | bandix-plus/src/dns.rs:988-1092 | Parsing inverts encoding for any 1 to 16 questions and any answers, whose names are spelled out or compressed by pointers to any place of the message that RFC 1035 gives the meant name within the reader's limits, keeping the first 64 answers. |
| `DnsMessage.SuffixesAreTargets` | bandix-plus/src/dns.rs:1094-1133 | Such a place is every suffix of a name spelled out anywhere in the first 16384 bytes of the message. |
| `DnsReply.ResponseAnswersIff` | bandix-plus/src/dns.rs:988-1092 | Any query and response a sender can write are read, and they share a match key if and only if the response is sent back to the query's address and port over its transport with the same id, the same record type and, label by label, the same name up to letter case; for names without a dot inside a label. |
| `DnsReply.QueryRepeatsIff` | bandix-plus/src/dns.rs:189-203 | Two queries as they are sent share a match key if and only if they come from one address, port and transport with the same id and question. |
| `DnsReply.ExchangeIsLogged` | bandix-plus/src/dns.rs:258-344 | A query and a response, as read from the wire, leave one entry: the query's id, endpoints, type and small-letter name, with the answer and the whole milliseconds it took if the response belongs to it and came within 30 s, otherwise unanswered. |
| `DnsReply.JoinTellsNamesApart` | bandix-plus/src/dns.rs:1120-1123 | Joined with dots, two names without a dot inside a label read alike if and only if they have the same labels up to letter case. |
| `DnsReply.DotReadsAsBoundary` | bandix-plus/src/dns.rs:1120-1123 | A label with a dot inside reads like two labels, so such names are not told apart. |
| `DnsReply.TypesDiffer` | bandix-plus/src/dns.rs:1138-1153 | The names of two record types agree up to letter case if and only if the types are the same. |
| `DnsPacket.ParseIpv6` | bandix-plus/src/dns.rs:936-986 | The extension-header loop follows up to eight headers as specified, with every access in bounds. |
| `DnsPacket.IsDnsPacket` | bandix-plus-ebpf/src/main.rs:409-527 | The filter accepts exactly the packets that have a kernel-side view, with every access in bounds; `DnsCapture` says which packets these are. |
| `DnsPacket.AcceptedPacketsAreParsed` | bandix-plus-ebpf/src/main.rs:409-527 | Every packet the filter accepts reaches the message parser in userspace with the same protocol, ports and DNS byte range. |
| `DnsPacket.FilterIsUserspacePlusExtras` | bandix-plus/src/dns.rs:863-912 | On packets held in linear memory the filter accepts exactly what userspace locates and that also passes the filter's extra checks. |
| `DnsPacket.SixVersusEightHeaders` | bandix-plus/src/dns.rs:936-986 | Each walk ends at a transport header if and only if the packet's header chain (section 4 of RFC 8200) reaches it within 6 respectively 8 headers. |
| `DnsCapture.LocatedIsDns` | bandix-plus/src/dns.rs:863-912 | Whatever userspace locates is UDP or TCP from or to port 53. |
| `DnsCapture.AcceptedIsStandard` | bandix-plus-ebpf/src/main.rs:409-527 | Every packet the filter accepts, however much of it is linear, carries a DNS header with 1 to 16 questions and an operation code of at most 5. |
| `DnsCapture.AcceptedIff` | bandix-plus-ebpf/src/main.rs:409-527 | Of the packets in linear memory that userspace locates, the filter accepts exactly those with such a header that are, over IPv6, whole and have at most six extension headers of the listed kinds. |
| `DnsCapture.ParsedIsAccepted` | bandix-plus-ebpf/src/main.rs:409-527 | A packet in linear memory whose DNS bytes userspace can parse is accepted, if its operation code is at most 5 and, over IPv6, the two header conditions hold. |
| `DnsCapture.LinearPart` | bandix-plus-ebpf/src/main.rs:409-527 | A packet only partly in linear memory is accepted if and only if it would be when whole and its IP header and its transport header are in that part. |
| `DnsCapture.ParsedIff` | bandix-plus/src/dns.rs:988-1092 | A message is read if and only if every one of its 1 to 16 questions and, of a response, each of the first 64 answers can be read where the one before it ends. |
| `DnsCapture.PacketIsCaptured4` | bandix-plus/src/dns.rs:863-934 | In a whole IPv4 packet with any options, UDP or TCP with any options, from or to port 53, userspace finds the ports and exactly the DNS bytes, and the filter accepts it if and only if their header is standard; a fragment is never located. |
| `DnsCapture.PacketIsCaptured6` | bandix-plus/src/dns.rs:936-986 | The same over IPv6 behind any chain of extension and authentication headers: userspace passes up to eight of them, the filter up to six. |
| `DnsCapture.NameBytes` | bandix-plus/src/dns.rs:1094-1133 | The names among them are labels behind their lengths, ended by a zero byte or by an offset under two set bits. |
| `DnsCapture.MessageBytes` | bandix-plus/src/dns.rs:988-1055 | The messages that reading inverts are those of section 4.1 of RFC 1035, field by field: numbers in two bytes, the highest first, and the known record types. |
| `DnsCapture.MessageIsCaptured` | bandix-plus-ebpf/src/main.rs:519-527 | Every such message, however compressed, is read back, and passes the filter's header check if and only if its operation code is at most 5. |
| `Netlink.NetlinkMessages.Next` | bandix-plus/src/conntrack.rs:863-884 | Each call takes the next message of the specified list, advances strictly, and ends after an error. |
| `Netlink.NetlinkAttributes.Next` | bandix-plus/src/conntrack.rs:898-940 | Each call takes the next attribute of the specified list, advances strictly, and ends after an error, a zero length or zero padding. |
| `Netlink.CollectAttrs` | bandix-plus/src/conntrack.rs:898-940 | Running the cursor to its end collects exactly the specified list on any bytes. |
| `Netlink.AttrsAreDisjointSlices` | bandix-plus/src/conntrack.rs:898-940 | On arbitrary bytes the attributes are disjoint in-bounds slices in increasing order, and only the last item can be an error. |
| `Netlink.FramesAreDisjointSlices` | bandix-plus/src/conntrack.rs:863-884 | On arbitrary bytes the payloads of the messages are disjoint in-bounds slices in increasing order, each behind a header of its own, and only the last item can be an error. |
| `Netlink.AttrsRoundTrip` | bandix-plus/src/conntrack.rs:898-940 | Any list of attributes is read back exactly from its aligned serialization, with any zero padding behind it. |
| `Netlink.FinalPaddingIsOptional` | bandix-plus/src/conntrack.rs:898-940 | The list is read back as well when the padding of its last attribute is missing. |
| `Netlink.ZeroLengthEndsList` | bandix-plus/src/conntrack.rs:898-940 | A zero length ends the list whatever follows it. |
| `Netlink.FramesRoundTrip` | bandix-plus/src/conntrack.rs:863-884 | Any list of messages is read back exactly from its aligned serialization. |
| `Netlink.UnpaddedFrameIsReported` | bandix-plus/src/conntrack.rs:863-884 | Behind any list of padded messages, a last message without its padding is read as the list and itself alone if and only if it needs no padding; otherwise an error is reported after it. |
| `Netlink.BadAttrIff` | bandix-plus/src/conntrack.rs:898-940 | An attribute is reported as malformed if and only if something but zeros is left and its header is cut short or its length is neither zero nor in bounds. |
| `Netlink.BadFrameIff` | bandix-plus/src/conntrack.rs:863-884 | A message is reported as malformed if and only if its header is cut short or its length is below 16 or out of bounds. |
| `Ctnetlink.ParseFlowMessage` | bandix-plus/src/conntrack.rs:659-715 | The attribute loop computes the specified fold, with malformed nesting as an error and incomplete or foreign flows as nothing. |
| `Ctnetlink.PassedOver` | bandix-plus/src/conntrack.rs:668-684 | An attribute that a step ignores can be inserted anywhere without changing the result, errors included. |
| `Ctnetlink.TupleRoundTrip` | bandix-plus/src/conntrack.rs:717-756 | Reading a nested address and port tuple inverts writing it, for IPv4 and IPv6 addresses. |
| `Ctnetlink.CountersRoundTrip` | bandix-plus/src/conntrack.rs:790-802 | Reading nested packet and byte counters inverts writing them. |
| `Ctnetlink.StateRoundTrip` | bandix-plus/src/conntrack.rs:758-788 | Reading the doubly nested TCP state inverts writing it. |
| `Ctnetlink.FlowRoundTrip` | bandix-plus/src/conntrack.rs:659-715 | Parsing inverts encoding for every TCP or UDP flow: tuples, counters, status, state and identifier. |
| `Ctnetlink.UnknownAttributesIgnored` | bandix-plus/src/conntrack.rs:668-684 | Attributes of unknown kinds may stand anywhere in a message, even a malformed one, without changing what is read. |
| `Ctnetlink.MalformedIsError` | bandix-plus/src/conntrack.rs:659-715 | A malformed attribute, at the top of a message or inside a tuple or counters, makes the whole message an error. |
| `FlowTable.ConntrackState.InsertFlow` | bandix-plus/src/conntrack.rs:478-488 | Registers the identifier, drops what it named before, and stores the flow unless the table is full and the tuple new. |
| `FlowTable.InsertWhenFull` | bandix-plus/src/conntrack.rs:478-488 | In a full table of 100000 flows a new tuple under a new identifier is registered, but its flow is not stored. |
| `FlowTable.ConntrackState.RemoveFlow` | bandix-plus/src/conntrack.rs:490-498 | Removes by identifier if it is known, otherwise by tuple. |
| `FlowTable.ConntrackState.ReplaceFlows` | bandix-plus/src/conntrack.rs:270-278 | Clears both maps and inserts the first entries of the dump up to the cap. |
| `FlowTable.ConntrackState.ApplyEventMessages` | bandix-plus/src/conntrack.rs:546-573 | One received buffer changes the maps as the specified message list does; an error keeps what came before it. |
| `FlowTable.DumpConntrack` | bandix-plus/src/conntrack.rs:582-633 | A dump over several buffers yields the specified entries, or fails where the source fails. |
| `FlowTable.EveryHistoryIsSafe` | bandix-plus/src/conntrack.rs:478-498 | Over every sequence of events, received buffers of arbitrary bytes and dumps, at most 100000 flows are tracked and every tracked flow's identifier names its own tuple. |
| `FlowTable.FramesAreSafe` | bandix-plus/src/conntrack.rs:546-573 | Applying whatever messages a buffer holds keeps the table safe. |
| `FlowTable.IdentifiersAreUnique` | bandix-plus/src/conntrack.rs:478-498 | In every reachable table no kernel identifier is attached to two flows. |
| `FlowTable.InsertMirrorsIff` | bandix-plus/src/conntrack.rs:478-488 | Inserting an announced flow keeps both maps equal to the kernel's table if and only if no other identifier still holds its tuple and there is room. |
| `FlowTable.EventsFollowKernel` | bandix-plus/src/conntrack.rs:478-498 | While the events are the kernel's own, tracked flows and identifiers equal its table after every one of them. |
| `FlowTable.DumpRestores` | bandix-plus/src/conntrack.rs:270-278 | A dump that fits, in any order and with repetitions, makes both maps equal to the kernel's table from any state. |
| `FlowTable.RecoversFromAnything` | bandix-plus/src/conntrack.rs:270-278 | After any history, a dump and the kernel's own events since give the kernel's table. |
| `FlowTable.LateDeleteTakesLiveFlow` | bandix-plus/src/conntrack.rs:490-498 | In any table with room, when a tuple is announced under a second identifier and the first is deleted afterwards, the live flow is lost from the table. |
| `FlowTable.DeleteTakesOnlyItsOwnIff` | bandix-plus/src/conntrack.rs:490-498 | In any tables a DELETE leaves every flow of another identifier alone if and only if the flow under the tuple its identifier is registered for, or else under its own tuple, carries that identifier or is absent. |
| `FlowTable.DeleteMirrorsIff` | bandix-plus/src/conntrack.rs:490-498 | A DELETE keeps both maps equal to the kernel's table if and only if the kernel has the entry or nothing is tracked under its tuple. |
| `FlowWire.BytesAreEvents` | bandix-plus/src/conntrack.rs:546-573 | A buffer of serialized NEW and DELETE messages acts on the table as the events themselves. |
| `FlowWire.BytesFollowKernel` | bandix-plus/src/conntrack.rs:546-573 | The kernel's own changes, written in the format the code reads, take a table equal to its old one to one equal to its new one. |
| `FlowWire.DumpIsRead` | bandix-plus/src/conntrack.rs:582-633 | A serialized dump, however it is cut into buffers, yields its entries in order up to the cap. |
| `FlowWire.DumpBytesRestore` | bandix-plus/src/conntrack.rs:582-633 | A dump of the kernel's table in the format the code reads restores that table from any state. |
| `FlowWire.UnclosedDumpFails` | bandix-plus/src/conntrack.rs:602-608 | A dump cut off before its closing message is never used. |
| `FlowLayout.FlowIsReadFromBytes` | bandix-plus/src/conntrack.rs:659-802 | The bytes of a flow message written out attribute by attribute, with the attribute numbers, lengths, byte orders and padding the code expects, are read as exactly that flow. |
| `FlowLayout.EventIsReadFromBytes` | bandix-plus/src/conntrack.rs:546-573 | A buffer of exactly these bytes behind a netlink header of type 0x100 inserts that flow, and of type 0x102 removes it. |
| `FlowLayout.FlagsAreMasked` | bandix-plus/src/conntrack.rs:898-940 | The nesting and byte-order bits of an attribute's kind play no part. |
| `FlowLayout.OnlyTcpAndUdp` | bandix-plus/src/conntrack.rs:659-715 | Whatever the bytes, a flow that is read is one of TCP or UDP, and only one of TCP has a state. |
| `FlowLayout.ControlInEvents` | bandix-plus/src/conntrack.rs:546-573 | In an event buffer an overrun or an error message with a non-zero number ends the reading with an error; the other control messages are passed over. |
| `FlowLayout.ControlInDumps` | bandix-plus/src/conntrack.rs:582-633 | A dump besides ends at its closing message, and an error message without a whole number fails it. |
| `EcmCounters.EcmMonitor.EcmDelta` | bandix-plus/src/monitor.rs:164-172 | One key's baseline becomes the value read, the delta is taken against the old one, and the activity time moves only with traffic. |
| `EcmCounters.EcmMonitor.Tick` | bandix-plus/src/monitor.rs:1768-1784 | One walk over a read updates every key and collects those idle for a minute, in whatever order the map is walked. |
| `EcmCounters.EcmMonitor.Prune` | bandix-plus/src/monitor.rs:1997-2013 | A key is forgotten if and only if the kernel still has it, its counter equals the baseline, and the kernel lets it go. |
| `EcmCounters.EcmMonitor.Retain` | bandix-plus/src/monitor.rs:2031-2034 | Baselines and activity times of keys that were not read are dropped. |
| `EcmCounters.SumCpus` | bandix-plus/src/monitor.rs:2589-2594 | The per-CPU values of a key add up to their exact sum, saturated once. |
| `EcmCounters.PassIsOrderFree` | bandix-plus/src/monitor.rs:1768-1784 | Baselines, deltas, times of last activity and idle keys of a walk are those of the read and the old maps alone, for every walking order. |
| `EcmCounters.ActivityIsLastMove` | bandix-plus/src/monitor.rs:164-172 | After any series of complete reads and prunes, the baseline of a kept key is what was last read, and its activity time is that of the read which last found it moved, or new. |
| `EcmCounters.IdleIffStill` | bandix-plus/src/monitor.rs:1768-1784 | A read finds a key idle if and only if the last read that found its counter moved, or the key new, was a minute or more ago. |
| `EcmCounters.NoByteLostOrReplayed` | bandix-plus/src/monitor.rs:1991-2034 | Over every interleaving of kernel increments, key-by-key reads, failed reads, prunes and clean-ups, reported bytes plus bytes not yet read are all bytes ever counted. |
| `EcmCounters.PrunedKeysAreSettled` | bandix-plus/src/monitor.rs:1991-2016 | A key that is gone from the kernel's map had all its bytes reported and has no baseline left. |
| `EcmCounters.RestartNeverAssumed` | bandix-plus/src/monitor.rs:2461-2463 | In every reachable state the branch that takes a smaller counter for a restarted one is not taken. |
| `EcmCounters.RetainDropsNothing` | bandix-plus/src/monitor.rs:2031-2034 | After a complete read the final clean-up finds no baseline to drop. |
| `EcmCounters.TickStep` | bandix-plus/src/monitor.rs:1768-1784 | The monitor's walk over a complete read, in any order, is the accounting step of the runs: same baselines, same reported bytes. |
| `EcmCounters.PruneStep` | bandix-plus/src/monitor.rs:1997-2013 | The monitor's recheck and removal of one key is the pruning step of the runs. |
| `EcmCounters.RetainStep` | bandix-plus/src/monitor.rs:2031-2034 | The monitor's final clean-up is the last step of a tick in the runs. |
| `EcmAttribution.UniqueSubnetIface` | bandix-plus/src/monitor.rs:2363-2373 | The loop tells none, one and several interfaces apart; repeated subnets of one interface are no ambiguity. |
| `EcmAttribution.InterfaceOnlyIfUnique` | bandix-plus/src/monitor.rs:1811-1913 | Without a valid owner traffic is booked to an interface if and only if the address is not the router's own and that interface is the only one with a matching subnet. |
| `EcmAttribution.AmbiguousStaysGlobal` | bandix-plus/src/monitor.rs:1858-1866 | An address matching two LAN interfaces is never booked to either. |
| `EcmPlaces.MatchesIsBlock` | bandix-plus/src/monitor.rs:2440-2458 | An address matches a subnet if and only if it lies in the same aligned block of 2^(width - prefix) addresses. |
| `EcmPlaces.SixtyFour` | bandix-plus/src/monitor.rs:1869-1875 | For the customary /64 over IPv6 this means that the first two words agree. |
| `EcmPlaces.LocalRanges4` | bandix-plus/src/monitor.rs:2473-2488 | The private and local IPv4 addresses are exactly the seven ranges that the code names. |
| `EcmPlaces.LocalRanges6` | bandix-plus/src/monitor.rs:1924-1931 | The local IPv6 addresses are exactly fc00::/7 and fe80::/10. |
| `EcmPlaces.GlobalIff` | bandix-plus/src/monitor.rs:1811-1940 | The global pool takes exactly ownerless addresses, not the router's own, that lie on several interfaces, or on none and look local; an IPv4 address in a subnet of the WAN does not look local. |
| `EcmPlaces.WanIff` | bandix-plus/src/monitor.rs:1811-1989 | The WAN takes exactly ownerless addresses, not the router's own, that lie on no interface and do not look local. |
| `EcmAttribution.EcmBooks.AttributeDelta` | bandix-plus/src/monitor.rs:1786-1989 | The branch walk books a delta exactly as the outcome of its address says; `EcmPlaces` says what that comes to for every counter. |
| `EcmAttribution.EcmBooks.AttributeAll` | bandix-plus/src/monitor.rs:1768-1989 | A tick books every positive delta and nothing else. |
| `EcmAttribution.CellsAreExact` | bandix-plus/src/monitor.rs:2636-2667 | Every counter ends at what it held plus the exact sum booked to it, saturated once; the WAN counts in the opposite direction. |
| `EcmPlaces.DeviceBytes` | bandix-plus/src/monitor.rs:2636-2655 | A tick adds to a device's uploads what came in, and to its downloads what went out, at the addresses it validly owns, IPv4 and IPv6 apart, up to 2^64 - 1. |
| `EcmPlaces.InterfaceBytes` | bandix-plus/src/monitor.rs:1795-1913 | To an interface, what moved at the addresses of its devices and at ownerless addresses that lie on it alone. |
| `EcmPlaces.UnresolvedBytes` | bandix-plus/src/monitor.rs:1811-1940 | To an interface's unresolved traffic, what moved at those ownerless addresses, and to the global pool what moved at those that belong there. |
| `EcmPlaces.WanBytes` | bandix-plus/src/monitor.rs:2657-2667 | To the WAN's downloads what came in, and to its uploads what went out, at the remaining addresses. |
| `EcmAttribution.BookingIsOrderFree` | bandix-plus/src/monitor.rs:1768-1989 | No counter depends on the order in which the keys are visited. |
| `EcmAttribution.LanIsDevicesAndUnresolved` | bandix-plus/src/monitor.rs:1795-1913 | What an interface is given is what its devices and its unresolved traffic are given together, for every interface number but the one of the global pool. |
| `EcmAttribution.LanBytesAddUp` | bandix-plus/src/monitor.rs:1795-1913 | Absent saturation, an interface's bytes after a tick are the bytes its devices gained plus its unresolved bytes. |
| `EcmAttribution.EveryByteHasOnePlace` | bandix-plus/src/monitor.rs:1786-1989 | Every byte of a tick is booked to exactly one interface, the global pool or the WAN, or is the router's own or of an owner without a record. |
| `EcmAttribution.BookedNowhereIff` | bandix-plus/src/monitor.rs:1786-1989 | Bytes of a known family and direction feed no counter at all if and only if the address is the router's own or its valid owner has no device record. |
| `Neighbours.NeighborCache.ObserveNeighbor` | bandix-plus/src/monitor.rs:90-111 | One observation updates the entry of its address as specified and no other. |
| `Neighbours.NeighborCache.ObserveTick` | bandix-plus/src/monitor.rs:1501-1521 | A tick drops stale entries and then applies its observations. |
| `Neighbours.OwnedIffUnanimous` | bandix-plus/src/monitor.rs:90-111 | After a tick that mentions an address, a device owns it exactly when every observation of that tick names that device. |
| `Neighbours.OrderDoesNotMatter` | bandix-plus/src/monitor.rs:90-111 | The cache after a tick is the same for every order and repetition of the same observations. |
| `Neighbours.ConflictLastsTheTick` | bandix-plus/src/monitor.rs:90-111 | A conflicted address has no owner for the rest of its tick, and a later unanimous tick gives it one again. |
| `Neighbours.OwnersWerePolled` | bandix-plus/src/monitor.rs:69-75 | Over every history a valid owner was named for the address by a neighbour table less than five minutes ago; traffic never creates or renews one. `PolledOwnerLasts` is the converse. |
| `Neighbours.PolledIsOwner` | bandix-plus/src/monitor.rs:69-75 | After a tick that mentions an address for the first time in it, a device is its valid owner if and only if every observation names it and less than five minutes have passed since the poll, which for IPv6 is the last one made. |
| `Neighbours.TickKeeps` | bandix-plus/src/monitor.rs:1501-1505 | A tick keeps an address if and only if it mentions it, or the address was polled less than five minutes ago and its owner's interface is still listed. |
| `Neighbours.PolledOwnerLasts` | bandix-plus/src/monitor.rs:69-75 | From any cache and over any later ticks that do not mention the address, that owner is valid if and only if less than five minutes have passed since the poll, every tick has listed its interface and it was not removed. |

## Left out

- HTTP API, TLS, command-line options, logging, sockets, threads and locks: each ingest, append, event or tick is one atomic step, except the write steps named as crash points.
- Crashes are stops between or inside writes in program order; the page cache reordering writes is not modelled, and the code promises nothing for it.
- RingStore.Store.OpenOrCreateRing: I/O errors are not modelled, except that a file which already has the temporary name makes a conversion fail.
- Restart.RingsStayInStep: restarts from a file that was stopped in its header or while a full ring was overwritten are left out, because such a ring can be lost; conversions at start-up find their temporary names, made from process id and time, free.
- RingFile.ReadBackLimited: sizes are unbounded integers; the 32-bit overflow of file sizes on small targets is not modelled.
- RingNames.ComponentRoundTrip: which byte strings are valid UTF-8 is a parameter.
- Multi-byte integers of the host's own order are taken as little-endian.
- The JSON state files (current hour, known devices, saved DNS records): a restart takes the open hours as given.
- Histogram.BytesConserved: interface and device series are one keyed family, with MAC addresses in canonical form; the bucket clock is an arbitrary function from time to an hour's start and end.
- Hours.HoursHoldTheirSamples: the rows of a series come in order, none after the end of its hour, and from one to the next the hour neither runs backwards nor changes its end; with a clock that is set back, an hour can be completed twice.
- Range queries over the history, traffic-type filters, and all bit rates and their smoothing (floating point); byte counters are exact.
- DnsTracker.DnsMonitor.Ingest: equality with the list model, whose duplicates are decided by the unpruned history, ends when the hard cap first fires; identifiers are assumed not to wrap at 2^64; records are restored only into a fresh monitor, as the start-up code does.
- DNS filters, top lists, percentiles and statistics.
- DnsMessage.MessageRoundTrip: names and texts are byte strings; the lossy conversion to text and the rendering of answers and response codes as words are left out.
- DnsReply.ResponseAnswersIff: for labels without a dot inside; with one the names are compared as joined, which takes the dot for the end of a label (`DnsReply.DotReadsAsBoundary`).
- DnsPacket.IsDnsPacket: link-layer resolution (VLAN and PPP headers) and the ring-buffer copy; loads beyond the linear part succeed whenever the packet has the bytes.
- Ctnetlink.FlowRoundTrip: the TCP state and the status flags are numbers rather than their names.
- Connection statistics per device.
- Netlink requests, sequence numbers and socket errors; received buffers are the input.
- EcmCounters.NoByteLostOrReplayed: a key's kernel counter stays below 2^64, every key present when a read starts is seen by it or the read fails, and recheck and removal of a pruned key are one step.
- EcmCounters.IdleIffStill: the keys pruned after each read are given; failed reads change neither map and are left out.
- EcmCounters.EcmMonitor.Prune: a kernel that refuses the removal is a parameter.
- Switching the offload feature off, which clears its state.
- EcmAttribution.LanIsDevicesAndUnresolved: the interface number 2^32 - 1 stands for the global pool in the code; the kernel never assigns it.
- Interface and device (traffic-control) counters outside the offload path, and their pruning, which removes without a recheck.
- Neighbours.OrderDoesNotMatter: all observations of an address in one tick carry the same time, as the collector passes them.
- Device discovery, hostname lookup and the parsing of addresses and prefixes: subnets are given as network and prefix length.
