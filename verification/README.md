# Seven ProFTPD contrib modules, modelled and proved in Dafny

ProFTPD's `contrib/` directory holds optional modules of the FTP server. This project models
the parts of seven of them that carry real state or arithmetic, in the form the C code has
(classes over fixed arrays and tables, loops, a file with an offset), and proves what they
compute and what every run of them keeps. `dafny verify dfyconfig.toml` checks everything.

| file | models |
|---|---|
| `Gf2.dfy`, `Crc32.dfy` | the table-driven CRC-32 of mod_digest, against the shift register and against polynomial division over GF(2) |
| `DigestFile.dfy` | the block-reading digest loop of mod_digest |
| `CacheKey.dfy`, `DigestCache.dfy`, `DigestRuns.dfy` | the digest cache of mod_digest: five string-keyed tables and one list ordered by modification time, and its runs |
| `SlotSearch.dfy` | the circular slot search both mod_ban tables use, as a machine with one probe per turn |
| `BanList.dfy`, `BanRuns.dfy`, `BanNames.dfy` | the ban list of mod_ban, and its runs as runs of a map |
| `BanEvents.dfy`, `BanCounting.dfy`, `BanHandling.dfy` | the ban-event list of mod_ban, what its counters mean over runs, and the event handler on both lists |
| `TallyFile.dfy`, `TallyRuns.dfy` | the record file of mod_quotatab_file, and its runs as runs of a list of tallies |
| `ForensicRing.dfy` | the message ring of mod_log_forensic |
| `DeflateStream.dfy` | the stream buffering of mod_deflate |
| `Ratio.dfy` | the download gate of mod_ratio |
| `IfVersion.dfy` | version parsing, comparison and section skipping of mod_ifversion |
| `Basics.dfy`, `Decimals.dfy` | shared types and decimal text |

How the C is rendered:

- Clocks, network and disk outcomes, zlib, the OpenSSL digests and the kernel's answers are
  parameters. A schedule of outcomes may be any sequence; where it runs out, the call succeeds;
  only the network feed of mod_deflate's reader then brings nothing more.
- `pr_table_add` refuses an existing key (`src/table.c:448-452`); `xaset_insert_sort` inserts
  before the first node that is not smaller (`src/sets.c:110-147`).
- The array sizes of mod_ban are an arbitrary positive number, its text buffers 128 characters.
- Integers are unbounded except where the width decides the outcome: CRC registers are 32 bits,
  cache keys print 64-bit values, `fsize` in mod_ratio is a 32-bit int, and version numbers go
  through a 64-bit `strtoul` into a 32-bit field.
- A removal in mod_ban may be given a pointer to the name inside a slot; the model re-reads that
  slot at every step, as `strcmp` does.
- The expiry walk of the digest cache reads a node's successor after the node's memory is freed
  (`contrib/mod_digest.c:1636-1654`, `1488`); the model steps to the successor that was there.

Where the code does not do what its comments or its purpose suggest, the code is modelled as it
is and the exact condition is proved:

- **The slot search can run for ever.** It records the cursor before wrapping it, so a full table
  entered with the cursor one past the end never meets its exit test. `SearchOutcome` and
  `FullWrappedSearchNeverStops` give the condition, `StepHangs` and `EventHangs` say which
  operations meet it, `HangIsReachable`, `EventHangIsReachable` and `LongSourcesFillList` reach it
  on every table size, and `WithoutEventsRunsReturn` shows that control requests alone never do.
- **Expiry of a ban can take others with it.** The name it removes by is cleared half-way through
  the removal, and the server is not compared. `ExpireSurvivors` says exactly which entries outlive
  an expiry, and `ExpiryTakesPermanentBan` is a run that loses a permanent ban.
- **Names of 128 characters or more are stored cut and never found again**, so the duplicate check
  lets them in twice: `LongNamesAreBannedTwice`, an if and only if.
- **A cache insert that finds its key present leaves a node behind for good**: the list has one
  node per table entry plus one per refused insert, in every run (`DigestRuns.Run`,
  `LeftOverStays`). `NoneLeftOver` is the if and only if, `NodeStaysBehind` a run.
- **A full digest cache refuses hits as well**: `AnswersAreDirectDigests`, and
  `FullCacheRefusesHits` is a run. A configured size that is a multiple of 2^32 is cut to zero, and
  a later "off" keeps that limit; everything is then refused even with caching off, contrary to the
  comment at `contrib/mod_digest.c:1663`: `ZeroLimitRefusesAll`, an if and only if, and `OffAndZero`.
- **Files of 2 GiB and more pass the byte-ratio gate wrongly**: `GateIsExact`, an if and only if,
  and `LargeFileBreaksRule`.
- **A short write while creating a tally reports success and breaks the file**:
  `ShortCreateBreaksTheFile`, an if and only if.
- **Event sources of 128 characters or more are never counted**, and every such event takes another
  slot: `CountedWhenSourceFits`, an if and only if on every list. Their slots then share one cut
  text, and expiry clears the first of them instead of the stale one: `ExpiryClearsFirstSlots` says
  exactly which slots survive, `YoungTwinIsCleared` is a run where a young one goes.
- **After a broken socket the deflate buffer is sent again from its start**: `StreamIsExact`, an if
  and only if over every run, and `ByteArrivesTwice`. The raw counter loses what earlier turns of an
  abandoned write returned, and a turn cut off by an abort adds the result before it again:
  `CounterIsExact`, an if and only if over every run, `CounterFallsShort`, `CounterExceeds`.
- **Candidates from `rc200` on do not rank below the stable release**, until the 32-bit sum wraps:
  `CandidateOrder`, an if and only if for every number.
- **`rc` without a number is accepted** (the comment at `contrib/mod_ifversion.c:200-203` calls it
  an error), as is an empty minor number; letter `a` ranks as the stable release: `ParseAccepts`,
  `MaintenanceOrder`.

## Model

| member | source | states |
|---|---|---|
| Gf2.FeedAllLinear | contrib/mod_digest.c:267-274 | the CRC register is linear over xor, in register and data together |
| Gf2.FeedIsFreeRun | contrib/mod_digest.c:267-274 | feeding up to 32 bits equals xoring them in first and clocking |
| Gf2.LookupFeedsByte | contrib/mod_digest.c:283-284 | one table lookup, xored with the register shifted by eight, feeds exactly eight bits |
| Gf2.FeedAllInjective | contrib/mod_digest.c:286-299 | with the data fixed, updating is injective on the 32-bit register |
| Gf2.FeedAllBijective | contrib/mod_digest.c:286-299 | with the data fixed, every register is reached, from exactly one register |
| Gf2.FeedDistinguishes | contrib/mod_digest.c:286-299 | two different bit strings of one length up to 32 lead to different registers |
| Gf2.DivisionIdentity | contrib/mod_digest.c:263-299 | extended message = quotient times generator + register, for every message and start register |
| Gf2.RegisterIsRemainder | contrib/mod_digest.c:263-299 | the register is a remainder of polynomial division by the CRC-32 generator |
| Gf2.RemainderUnique | contrib/mod_digest.c:263-299 | a dividend has only one remainder |
| Crc32.PolyIsTail | contrib/mod_digest.c:270 | 0xEDB88320, written out, is the generator of section 8 of RFC 1952 in register order |
| Crc32.ClockOnce | contrib/mod_digest.c:269-273 | one turn of the inner table loop clocks a zero bit through the register |
| Crc32.TableEntry | contrib/mod_digest.c:267-276 | entry i is the register byte i leaves behind |
| Crc32.FillTable | contrib/mod_digest.c:263-277 | all 256 entries satisfy that |
| Crc32.TableIndex | contrib/mod_digest.c:283 | the index is the bits of the low register byte xor the data byte |
| Crc32.Combine | contrib/mod_digest.c:283 | the new register is the entry xor the register shifted by eight |
| Crc32.Context.constructor | contrib/mod_digest.c:250-281 | a correct table and an all-ones register |
| Crc32.Context.Update | contrib/mod_digest.c:286-299 | for every byte string, the register moves exactly as the bit-at-a-time register does |
| Crc32.Context.Final | contrib/mod_digest.c:301-310 | the complemented register, most significant byte first |
| Crc32.NetworkBytesRoundTrip | contrib/mod_digest.c:304-308 | the four bytes, read back least significant first, are the register |
| Crc32.UpdateIsIncremental | contrib/mod_digest.c:286-299 | updating with a and then b is updating with a + b |
| Crc32.CrcIsPolynomialRemainder | contrib/mod_digest.c:250-299 | 32 bits are the CRC register of a message if and only if they are its polynomial remainder |
| Crc32.CrcDeterminesRegister | contrib/mod_digest.c:301-310 | equal digests come from equal registers |
| Crc32.BurstsAreDetected | contrib/mod_digest.c:250-310 | messages that differ only inside a window of at most 32 bits never share a CRC |
| Crc32.ResidueIsConstant | contrib/mod_digest.c:250-310 | a message followed by its CRC, low byte first, leaves the same register whatever the message |
| DigestFile.Evp.Update | contrib/mod_digest.c:1148-1151 | the context has absorbed the earlier bytes followed by these |
| DigestFile.Evp.Final | contrib/mod_digest.c:1183 | the CRC of all absorbed bytes for CRC32, the library's digest of them under the same algorithm otherwise |
| DigestFile.AbsorbRange | contrib/mod_digest.c:1119-1167 | every schedule of short and interrupted reads absorbs exactly the requested bytes, once and in order, and ends |
| DigestFile.ComputeDigest | contrib/mod_digest.c:1033-1200 | refuses exactly the files and ranges that cannot be digested, written out; otherwise what each of the five algorithms makes of that range, independent of chunking |
| CacheKey.KeysAreInjective | contrib/mod_digest.c:1363-1383 | different path, mtime, start or length never share a key, whatever the path contains |
| CacheKey.KeyText | contrib/mod_digest.c:1363-1383 | the text of a key: path, separators and three decimal numbers, negative ones as unsigned 64-bit |
| Decimals.DecimalDigits | contrib/mod_digest.c:1370-1378 | the last digit of a printed number is its remainder by ten, the others those of the quotient |
| DigestCache.HexRoundTrip | contrib/mod_digest.c:220-230 | digest text of either case reads back to the digest bytes |
| DigestCache.HexOfBytes | contrib/mod_digest.c:220-230 | two digits of 0123456789abcdef for each byte, the high one first |
| DigestCache.ToUpper | contrib/mod_digest.c:1772-1778 | characters from a to z move down by 32 code points, all others stay |
| DigestCache.Cache.CreateKey | contrib/mod_digest.c:1405-1437 | inserts one node and keeps the list in mtime order |
| DigestCache.Cache.FindKey | contrib/mod_digest.c:1439-1469 | the first node with the given fields |
| DigestCache.Cache.RemoveCached | contrib/mod_digest.c:1471-1513 | succeeds exactly when the table has the key; then drops it and exactly one of its nodes |
| DigestCache.Cache.AddCached | contrib/mod_digest.c:1515-1556 | the table keeps a value it already has and reports it; the list gains the node either way |
| DigestCache.Cache.GetCached | contrib/mod_digest.c:1558-1618 | the stored text exactly when the key is held and at most maxAge seconds past its modification time; an older entry is evicted and nothing else changes |
| DigestCache.Cache.ExpiryWalk | contrib/mod_digest.c:1620-1658 | although it stops early, the tables afterwards hold exactly the entries that are not past their age |
| DigestCache.Cache.Expire | contrib/mod_digest.c:1620-1658 | after the timer exactly the entries at most maxAge seconds past their modification time are held, with their texts |
| DigestCache.PrunedByAge | contrib/mod_digest.c:1636-1654 | the same of the pruned tables |
| DigestCache.Cache.GetDigest | contrib/mod_digest.c:1660-1781 | exactly what is answered, what the tables become, and when a refused insert adds a node that no entry accounts for |
| DigestCache.ConsistentAfterAdd | contrib/mod_digest.c:1532-1555 | a stored or refused insert keeps every entry backed and the node count exact |
| DigestCache.ConsistentAfterRemove | contrib/mod_digest.c:1492-1513 | a table entry always has a node, and dropping both keeps the rest backed |
| DigestRuns.SoundAfterInsert | contrib/mod_digest.c:1515-1556 | caching a correct digest keeps every cached text correct |
| DigestCache.BackingNodeIsYoung | contrib/mod_digest.c:1636-1654 | when the walk stops, no entry that is left is past its age |
| DigestRuns.Run | contrib/mod_digest.c:1515-1781 | for every run, the answers and the tables of the cache in memory are those of the step function folded over the run, and the list has one node per entry plus one per refused insert |
| DigestRuns.NoneLeftOver | contrib/mod_digest.c:1515-1556 | no node is left over if and only if no insert of the run found its key in the table |
| DigestRuns.LeftOverStays | contrib/mod_digest.c:1471-1513 | however a run goes on, the number of nodes left over never goes down |
| DigestRuns.NodeStaysBehind | contrib/mod_digest.c:1636-1654 | the same transfer twice and a late timer leave five empty tables and one node |
| DigestRuns.RunsAreSound | contrib/mod_digest.c:1515-1781 | in every run each cached text is the digest computed directly from the file it is keyed by |
| DigestRuns.AnswersAreDirectDigests | contrib/mod_digest.c:1660-1781 | in every run, exactly which requests go unanswered; every other answer is the digest computed directly, in the asked case |
| DigestRuns.AnswersInFull | contrib/mod_digest.c:1202-1235 | in every run an answer is the text, with letters in the case asked for, of what the requested algorithm makes of the requested range, algorithm by algorithm |
| DigestRuns.SizeIsBounded | contrib/mod_digest.c:1660-1690 | in every run the five tables exceed the maximum by at most one entry per finished transfer, not at all without transfers |
| DigestRuns.AnsweredFromCache | contrib/mod_digest.c:1692-1781 | a computed digest is answered again by the next request, whatever became of the file, if and only if it is not past its age and the cache not full |
| DigestRuns.HeldExactly | contrib/mod_digest.c:1515-1781 | in every run a key is held if and only if some operation put it in and no later one took it out |
| DigestRuns.FullCacheRefusesHits | contrib/mod_digest.c:1702-1710 | with a maximum of one, the same request twice is answered once |
| DigestRuns.ZeroLimitRefusesAll | contrib/mod_digest.c:1660-1690 | exactly which accepted directives leave a size limit of zero; nothing is answered under it; with caching off the size check is met if and only if it is in force |
| DigestRuns.OffAndZero | contrib/mod_digest.c:2537-2544 | a size of 2^32 for the server and off for the login give caching off with a limit of zero |
| DigestRuns.DirectivesInNumbers | contrib/mod_digest.c:657-745 | which DigestCache directives are accepted and the settings they give, in numbers |
| SlotSearch.KeepsProbing | contrib/mod_ban.c:1216-1284 | while slots are used, the search visits one slot per turn in wrapping order |
| SlotSearch.FindsFirstFree | contrib/mod_ban.c:1216-1284 | it ends on the first free slot in that order |
| SlotSearch.SearchOutcome | contrib/mod_ban.c:1213-1284 | it stops within n + 1 probes if and only if a slot is free or the cursor was below n; it succeeds if and only if a slot is free; on failure the cursor is back |
| SlotSearch.FullWrappedSearchNeverStops | contrib/mod_ban.c:1213-1283 | otherwise it never stops |
| SlotSearch.Seek | contrib/mod_ban.c:1213-1284 | the search loop, which both lists repeat, ends as the probing machine does |
| BanList.List.constructor | contrib/mod_ban.c:103-107 | an empty list, headroom included |
| BanList.List.Add | contrib/mod_ban.c:1202-1317 | stores in the first free slot from the cursor, or reports no space and changes nothing |
| BanList.List.Exists | contrib/mod_ban.c:1325-1352 | true if and only if some slot bans the name here or everywhere; the message is that of the first such slot, none if it is empty |
| BanList.List.Remove | contrib/mod_ban.c:1445-1516 | exactly which slots are cleared, for a wildcard, a text, and a name that points into a slot |
| BanList.RemovalWrittenOut | contrib/mod_ban.c:1459-1507 | those slots in terms of kind, server, name and position, and that they are zeroed |
| BanList.List.Expire | contrib/mod_ban.c:1519-1557 | the list afterwards, slot by slot, with its counter exact |
| BanList.LapseStep | contrib/mod_ban.c:1528-1555 | one turn of the expiry scan, including the removal that clears its own argument |
| BanList.ExpireSurvivors | contrib/mod_ban.c:1519-1557 | exactly which entries outlive an expiry |
| BanList.ExpireLeavesNoneExpired | contrib/mod_ban.c:1519-1557 | every entry left is permanent or expires after now |
| BanList.ExpireKeepsUnshared | contrib/mod_ban.c:1519-1557 | a non-empty name no expired entry of its kind shares survives unchanged |
| BanRuns.AbsSize | contrib/mod_ban.c:1260 | with distinct keys the number of used slots is the size of the map |
| BanRuns.ExistsIsMapLookup | contrib/mod_ban.c:1325-1352 | a name is banned if and only if the map has it for all servers or for this one |
| BanRuns.StoreIsMapUpdate | contrib/mod_ban.c:1225-1261 | filling a slot is a map update; keys stay distinct if and only if the key is new |
| BanRuns.RemoveIsMapDeletion | contrib/mod_ban.c:1459-1507 | a removal deletes exactly the matching keys |
| BanRuns.AddFollowsMap | contrib/mod_ban.c:1202-1284 | an add of a new key adds it to the map unless the list is full |
| BanRuns.StepHangs | contrib/mod_ban.c:1213-1284 | exactly which operations never return |
| BanRuns.WithoutEventsRunsReturn | contrib/mod_ban.c:2150-2170 | runs of control requests, removals and expiries, with any names, always return a well-formed list |
| BanRuns.StepKeepsWf | contrib/mod_ban.c:1202-1557 | every operation that returns, with any names, keeps the counter exact and free slots zero |
| BanRuns.HangIsReachable | contrib/mod_ban.c:3084-3094 | after any n control requests that are no duplicates, while none has expired, an event's ban of anyone else never returns |
| BanRuns.HangOnEverySize | contrib/mod_ban.c:3084-3094 | there is such a run for every list size |
| BanRuns.LongNamesAreBannedTwice | contrib/mod_ban.c:1230 | banning a new name twice keeps keys distinct if and only if the name fits its buffer |
| BanRuns.ExpiryTakesPermanentBan | contrib/mod_ban.c:1519-1557 | on every list of two slots or more, a run in which the expiry of one ban loses a permanent ban of the same name |
| BanNames.LenIsSum | contrib/mod_ban.c:1260 | the counter is the size of the map plus the slots that hold texts over-long names are cut to |
| BanNames.LapseStepOutside | contrib/mod_ban.c:1519-1557 | outside those texts an expiry is an expiry of the map |
| BanNames.RemoveOutside | contrib/mod_ban.c:1445-1516 | outside those texts a removal deletes exactly the matching keys |
| BanNames.AddOutside | contrib/mod_ban.c:1202-1284 | an add is a map update, or takes a slot beside the map, unless the list is full |
| BanNames.StepFollowsOutside | contrib/mod_ban.c:1202-1557 | every operation, with names of any length, is a step of the map with slots beside it |
| BanNames.RunsRefineTheMapOutside | contrib/mod_ban.c:1202-1557 | every run, with names of any length, is a run of the map outside the texts over-long names are cut to |
| BanNames.RunsRefineTheMap | contrib/mod_ban.c:1202-1557 | every run whose names fit is a run of the map: counter exact, keys distinct, free slots zero |
| BanEvents.List.constructor | contrib/mod_ban.c:141-145 | an empty event list, headroom included |
| BanEvents.List.Add | contrib/mod_ban.c:1623-1685 | the slot it opens, field by field, with a count of zero; no slot is free if and only if it reports no space |
| BanEvents.List.Get | contrib/mod_ban.c:1687-1708 | the first slot for the source |
| BanEvents.List.Remove | contrib/mod_ban.c:1710-1745 | clears the first slot of a source, or without a source all slots of the kind and server, and counts them out; when it reports success |
| BanEvents.List.Expire | contrib/mod_ban.c:1747-1776 | the list after the scan in which each stale slot is removed by its own source, for every list |
| BanEvents.FirstRemaining | contrib/mod_ban.c:1771-1773 | a stale slot with c stale ones of its source before it clears that source's slot number c |
| BanEvents.ExpiryClearsFirstSlots | contrib/mod_ban.c:1747-1776 | exactly which slots outlive an expiry: a source with s stale slots loses its first s, stale or not |
| BanEvents.LoneSlotExpires | contrib/mod_ban.c:1747-1776 | a slot with a source of its own is cleared exactly when it has an expiry and start plus window is not after now |
| BanEvents.DistinctExpiry | contrib/mod_ban.c:1747-1776 | with one slot per source, exactly the slots whose window is over are zeroed |
| BanCounting.ExpireKeepsInv | contrib/mod_ban.c:1747-1776 | expiry keeps counters exact and leaves only open windows |
| BanCounting.NewSourceKeepsInv | contrib/mod_ban.c:3045-3065 | a first event starts its window at one, because freed slots are zeroed |
| BanCounting.EventKeepsInv | contrib/mod_ban.c:3041-3067 | an event of any source keeps every counter exact; the threshold is reached if and only if the log shows the maximum since the window's start; an over-long source is never counted |
| BanCounting.ForeignEventKeepsInv | contrib/mod_ban.c:3041-3065 | events of over-long sources, and of the texts they are cut to, touch no other counter |
| BanCounting.CountersAreExact | contrib/mod_ban.c:1623-1776 | in every run, for every source but the texts over-long ones are cut to, the counter is min(maximum, events since start), all inside the window, under the rule that opened it |
| BanCounting.EventHangs | contrib/mod_ban.c:1633-1682 | exactly which events are never handled to the end |
| BanCounting.CountedWhenSourceFits | contrib/mod_ban.c:1647-1658 | on every list with room, an event is counted if and only if its source fits; otherwise it uses up a slot and reaches no threshold |
| BanCounting.CutTextSharesSlot | contrib/mod_ban.c:1647-1658 | a run in which the text an over-long source is cut to is counted in a window that began before its first event |
| BanCounting.YoungTwinIsCleared | contrib/mod_ban.c:1771-1773 | a run in which an expiry clears the young one of two slots of an over-long source and leaves the stale one |
| BanCounting.EventHangIsReachable | contrib/mod_ban.c:1633-1682 | after any n events that each open a slot, while their windows last, the next one that would is never handled to the end |
| BanCounting.EventHangOnEverySize | contrib/mod_ban.c:1633-1682 | there is such a run for every list size |
| BanCounting.LongSourcesFillList | contrib/mod_ban.c:1633-1682 | any n events of over-long sources, even of one, are not counted, and the next within their windows is never handled to the end |
| BanHandling.CountEvent | contrib/mod_ban.c:3041-3065 | the counting half of the handler |
| BanHandling.AttemptBan | contrib/mod_ban.c:3075-3094 | an attempt if and only if no ban exists yet; with room it adds one entry, whose kind, server, name, reason, message and expiry are written out |
| BanHandling.HandleEvent | contrib/mod_ban.c:3012-3116 | a ban is attempted if and only if the counter has reached its maximum and no ban exists; with room the list gains the entry written out, with expiry now plus the rule's expiry |
| BanHandling.LastIsEarned | contrib/mod_ban.c:3041-3094 | an event whose source reaches its threshold asks for a ban that the log bears out |
| BanHandling.EveryBanIsAccountedFor | contrib/mod_ban.c:3012-3116 | in every run of events, timers and control requests over both lists, each entry of the ban list was requested, or put there by an event whose source had reached its maximum since its window began |
| BanHandling.ReachedSourceIsBanned | contrib/mod_ban.c:3041-3094 | in every run an event that brings its source to its maximum leaves that source banned, unless every slot is in use after expiry |
| TallyFile.DecodeEncode | contrib/mod_quotatab_file.c:366-388 | decoding a written tally gives the tally |
| TallyFile.EncodeDecode | contrib/mod_quotatab_file.c:213-235 | every record is the encoding of what it decodes to |
| TallyFile.RecordLayout | contrib/mod_quotatab.h:87-101 | where each field of a tally is in its 121 bytes, integers least significant byte first |
| TallyFile.SpliceRecord | contrib/mod_quotatab_file.c:349-418 | a whole record written at a boundary replaces that record or appends one; no other changes |
| TallyFile.RecordsAreDisjoint | contrib/mod_quotatab_file.c:444-456 | different records occupy disjoint bytes |
| TallyFile.MatchOfEncoded | contrib/mod_quotatab_file.c:143-153 | a stored tally matches by its own type, and its own name unless the type is ALL_QUOTA |
| TallyFile.MatchOfPadded | contrib/mod_quotatab_file.c:143-153 | a tally stored under a NUL-padded name is found under that name and no other |
| TallyFile.PartOfRecord | contrib/mod_quotatab_file.c:390-399 | a write that is cut short inside the file leaves the rest of the old record |
| TallyFile.File.Retry | contrib/mod_quotatab_file.c:91-98 | succeeds if and only if no call fails hard |
| TallyFile.File.ReadRecord | contrib/mod_quotatab_file.c:192-261 | fills what the file has left, -1 at the end, offset restored |
| TallyFile.File.WriteRecord | contrib/mod_quotatab_file.c:349-418 | overwrites at the offset what the kernel took, offset restored |
| TallyFile.File.CreateRecord | contrib/mod_quotatab_file.c:50-119 | appends, and positions on the new record |
| TallyFile.File.LookupRecord | contrib/mod_quotatab_file.c:121-190 | for any file contents and any outcomes of its reads: whether a record was found, the offset and the caller's record |
| TallyFile.File.SetLock | contrib/mod_quotatab_file.c:420-433 | locks exactly the 121 bytes at the offset |
| TallyFile.File.ClearLock | contrib/mod_quotatab_file.c:425-428 | unlocks exactly those bytes |
| TallyRuns.ScanStops | contrib/mod_quotatab_file.c:121-190 | on a well-formed file the lookup stops at the first tally that matches or whose read fails, or at the end |
| TallyRuns.LookupFindsFirstMatch | contrib/mod_quotatab_file.c:138-166 | without hard errors a lookup gives the first tally of that type and name |
| TallyRuns.FileStandsForTallies | contrib/mod_quotatab_file.c:121-131 | four header bytes and the records of any tallies are a well-formed file that stands for them |
| TallyRuns.LookupInNumbers | contrib/mod_quotatab_file.c:121-190 | on such a file a lookup ends at byte 4 + 121 k with the k-th tally, the first that matches, or at the end |
| TallyRuns.WriteIsTally | contrib/mod_quotatab_file.c:349-418 | a write changes one tally, wholly or in its first bytes, or appends one; no other changes |
| TallyRuns.WholeWriteIsRead | contrib/mod_quotatab_file.c:192-418 | a whole write stores exactly the new tally, and a read after it gives that tally |
| TallyRuns.WholeStoreIsExact | contrib/mod_quotatab_file.c:349-418 | so does a whole store under a lock |
| TallyRuns.Perform | contrib/mod_quotatab_file.c:50-418 | one operation on the file, whatever its system calls do, is that operation on the list of tallies, and gives the caller the same tally |
| TallyRuns.Run | contrib/mod_quotatab_file.c:50-418 | every run whose appends are whole keeps 4 + 121 n bytes, stands for the same run on the list of tallies and gives the same tallies |
| TallyRuns.Session | contrib/mod_quotatab_file.c:192-433 | after a lookup, locks, reads and writes act on one record: reads see the last write, nothing else changes |
| TallyRuns.FetchSeesStore | contrib/mod_quotatab_file.c:192-418 | a tally stored whole and then fetched is seen as it was stored |
| TallyFile.ShortCreateBreaksTheFile | contrib/mod_quotatab_file.c:91-118 | after a create the file is well-formed if and only if it was not cut short |
| ForensicRing.Ring.Add | contrib/mod_log_forensic.c:113-153 | the slots from the write index hold the last messages in arrival order |
| ForensicRing.Ring.Sweep | contrib/mod_log_forensic.c:528-629 | writes and empties all slots but the newest, in ring order |
| ForensicRing.Ring.Flush | contrib/mod_log_forensic.c:525-629 | writes every buffered message but the newest, which stays |
| ForensicRing.WrittenInArrivalOrder | contrib/mod_log_forensic.c:113-629 | in every run the log is in arrival order, no message twice |
| ForensicRing.WrittenExactly | contrib/mod_log_forensic.c:113-629 | a message is written if and only if some flush finds between 1 and n - 1 newer ones |
| ForensicRing.Run | contrib/mod_log_forensic.c:113-629 | for every run, the log written and the messages left in the ring's slots are those of its history |
| DeflateStream.Reader.TakeBuffered | contrib/mod_deflate.c:371-428 | hands out a prefix of the buffer and keeps the rest; an emptied buffer is back at its base |
| DeflateStream.Reader.Refill | contrib/mod_deflate.c:440-566 | the state after a read from the network; 0 exactly when nothing came and nothing was left to inflate, otherwise -1 |
| DeflateStream.Reader.Read | contrib/mod_deflate.c:344-567 | result, data and state of one call: when it is positive, when 0, and when -1 |
| DeflateStream.Reader.ReadAndCount | contrib/mod_deflate.c:388-397 | with the caller's addition the counter is as if only compressed bytes had been counted |
| DeflateStream.RunReads | contrib/mod_deflate.c:344-567 | every request of every run is served as specified: what is handed out and what the reader holds |
| DeflateStream.NothingInflatedIsLost | contrib/mod_deflate.c:344-567 | for all requests and feeds, data handed out plus data buffered is what inflate made of the feed used, and the counter is the compressed bytes read |
| DeflateStream.RequestsMakeProgress | contrib/mod_deflate.c:366-566 | every positive request hands out a byte or uses the feed, until nothing is left |
| DeflateStream.EnoughReadsReturnEverything | contrib/mod_deflate.c:344-567 | enough positive requests return all that inflate makes of the whole feed |
| DeflateStream.ZeroIsTheEnd | contrib/mod_deflate.c:459-469 | in every run a request returns 0 if and only if nothing is buffered, the network ends and no input is left |
| DeflateStream.ReadUntilZero | contrib/mod_deflate.c:344-567 | a caller who reads until the first 0 has been handed everything inflate made of the feed |
| DeflateStream.Writer.Drain | contrib/mod_deflate.c:724-769 | sends, in order, exactly the bytes the socket takes before it breaks, and succeeds if and only if those are all |
| DeflateStream.Writer.Write | contrib/mod_deflate.c:669-787 | the state and result of one call: all sent and the buffer reset, or part sent and all of it kept |
| DeflateStream.TakeTurn | src/netio.c:1111-1194 | one turn of a caller's write, an aborted or abandoned one included: buffer, bytes sent, counter and the caller's variables |
| DeflateStream.RunWrites | contrib/mod_deflate.c:583-787 | every run, broken sockets and aborted transfers included, sends, buffers and counts as specified |
| DeflateStream.StreamIsExact | contrib/mod_deflate.c:722-769 | over every run, bytes sent plus bytes buffered are what deflate produced if and only if no call broke off after sending part of the buffer |
| DeflateStream.WholeStreamIsExact | contrib/mod_deflate.c:609-653 | after a complete shutdown the peer has exactly the deflated stream under the same condition |
| DeflateStream.WholeWriteCompletes | src/netio.c:1111-1194 | a write taken whole is over after one turn, with the counter exact |
| DeflateStream.FinishCounts | contrib/mod_deflate.c:609-653 | the shutdown counts exactly what it sends |
| DeflateStream.SentLength | contrib/mod_deflate.c:722-769 | the excess is exactly the bytes sent by calls that broke off |
| DeflateStream.ResentFromStart | contrib/mod_deflate.c:735-769 | after a break the peer sees the part that got through and then all of the buffer again |
| DeflateStream.ByteArrivesTwice | contrib/mod_deflate.c:735-769 | a run in which two bytes arrive as three |
| DeflateStream.CounterIsExact | src/netio.c:1111-1194 | the raw counter differs from the bytes sent by exactly the results of writes that were given up, which it misses, and those aborted turns take again; it is exact if and only if the two sums agree |
| DeflateStream.CounterFallsShort | src/netio.c:1111-1194 | runs in which it is short |
| DeflateStream.CounterExceeds | src/netio.c:1145-1147 | runs in which it has too much, and a write reports success for bytes that never reached deflate |
| DeflateStream.AbortWrapsAround | src/netio.c:1188-1190 | a repeated result larger than the bytes left wraps the number left around 2^64 |
| Ratio.Stats.UpdateRatios | contrib/mod_ratio.c:228-266 | the remaining allowances, written out for positive and negative rates |
| Ratio.Stats.PreRetr | contrib/mod_ratio.c:528-571 | admits if and only if one more file and the size in kilobytes stay within the rule, written out over rates, counts and credits |
| Ratio.Stats.PostRetr | contrib/mod_ratio.c:837-848 | counts one file and its kilobytes out, allowances up to date |
| Ratio.Stats.PostStor | contrib/mod_ratio.c:850-861 | counts one file and its kilobytes in, allowances up to date |
| Ratio.Run | contrib/mod_ratio.c:528-861 | the session lets through exactly the commands the rule admits at their time, and counts exactly those |
| Ratio.RefusedExactly | contrib/mod_ratio.c:542-567 | in every run a download is refused if and only if it would exceed the rule, for sizes an int holds |
| Ratio.CountsAreTotals | contrib/mod_ratio.c:837-861 | the counts of a run are the numbers and kilobytes of the uploads and admitted downloads |
| Ratio.FilesStayWithinRule | contrib/mod_ratio.c:528-861 | in every run the files retrieved never exceed what was earned and credited |
| Ratio.BytesStayWithinRule | contrib/mod_ratio.c:528-861 | in every run the kilobytes retrieved exceed it by at most what one admitted download exceeded its checked size |
| Ratio.MeasuredRunsStayWithinRule | contrib/mod_ratio.c:528-861 | not at all when no download is larger than the size checked |
| Ratio.LargeFileBreaksRule | contrib/mod_ratio.c:551-567 | a run in which a 2 GiB file is let through with nothing earned |
| Ratio.GateIsExact | contrib/mod_ratio.c:551-567 | the byte gate compares the true size if and only if the file is below 2 GiB |
| IfVersion.ConvertUpTo | contrib/mod_ifversion.c:78-89 | converts the terminated part and restores the string |
| IfVersion.FindDot | contrib/mod_ifversion.c:78 | the next dot, or the terminator |
| IfVersion.ParseVersion | contrib/mod_ifversion.c:52-248 | the meaning of the string, which is left as it was on every path |
| IfVersion.ParseMinorAt | contrib/mod_ifversion.c:109-139 | the minor part |
| IfVersion.ParseRevisionAt | contrib/mod_ifversion.c:141-198 | the revision part |
| IfVersion.SuffixAt | contrib/mod_ifversion.c:200-247 | the release status from the suffix, or a syntax error |
| IfVersion.SuffixRoundTrip | contrib/mod_ifversion.c:200-247 | each kind of suffix gives its status, in numbers: 300, 100, 100 plus the number cut to 32 bits, 300 plus the letter |
| IfVersion.ParseRoundTrip | contrib/mod_ifversion.c:52-248 | the text of any version parses to that version, its numbers cut to their width |
| IfVersion.FieldAccepts | contrib/mod_ifversion.c:78-89 | a component converts if and only if it is empty or blanks, a sign and digits |
| IfVersion.SignedComponents | contrib/mod_ifversion.c:78-89 | a plus changes nothing and a minus counts down from 2^64, cut to 32 bits |
| IfVersion.CharacterClasses | contrib/mod_ifversion.c:73-75 | which character codes are digits, letters and blanks, and their upper case |
| IfVersion.ParseAccepts | contrib/mod_ifversion.c:52-248 | a string is accepted if and only if it is in the language of versions |
| IfVersion.ShortFormsRoundTrip | contrib/mod_ifversion.c:99-139 | so does one without revision, or without minor number |
| IfVersion.CompareIsLexicographic | contrib/mod_ifversion.c:274-300 | the comparison ladder is the lexicographic order on four components |
| IfVersion.CompareIsTotalPreorder | contrib/mod_ifversion.c:274-300 | antisymmetric in sign, and transitive |
| IfVersion.CandidateOrder | contrib/mod_ifversion.c:42-48 | for parsed texts of one revision, RC < stable if and only if the candidate number is below 200, or beyond that wraps around or saturates to a sum below 300 |
| IfVersion.CandidateIsNotBelowStable | contrib/mod_ifversion.c:241-241 | rc200 ranks as the stable release |
| IfVersion.MaintenanceOrder | contrib/mod_ifversion.c:214-216 | stable < maintenance if and only if the letter is not a |
| IfVersion.ShortFormOrder | contrib/mod_ifversion.c:99-139 | a version without revision ranks below every release of revision 0 but one whose status is 0 |
| IfVersion.SkipSection | contrib/mod_ifversion.c:452-469 | lines read and whether the section was closed |
| IfVersion.OpensExactly | contrib/mod_ifversion.c:456-458 | a line opens a section if and only if it begins with <IfVersion in any case |
| IfVersion.ClosesExactly | contrib/mod_ifversion.c:460-462 | a line closes one if and only if it is </IfVersion> in any case |
| IfVersion.SkipsToBalance | contrib/mod_ifversion.c:452-463 | on any lines, skipping reads to the first place where closing lines have caught up with opening ones and the section itself |
| IfVersion.BodyIsPassedOver | contrib/mod_ifversion.c:452-463 | any well-nested body is passed over at the depth it was entered |
| IfVersion.SkipStopsAtMatchingClose | contrib/mod_ifversion.c:452-463 | skipping ends on the section's own closing line |
| IfVersion.UnclosedSectionIsReported | contrib/mod_ifversion.c:465-469 | a body without its close is read to the end and reported |

## Left out

- BanList.List.Add: requires that the search stops, since a Dafny method must return; the calls that do not are characterised by `StepHangs` and `FullWrappedSearchNeverStops`.
- BanEvents.List.Add: the same, characterised by `EventHangs`.
- BanNames.LapseStepOutside: leaves open what becomes of an unexpired entry that shares kind and name with an expired one, since the order of the slots decides it; `ExpireSurvivors` is exact.
- BanHandling.HandleEvent: and so the handler, `CountEvent` and `AttemptBan`, for the calls that return.
- BanCounting.CountersAreExact: says nothing of the texts that over-long sources of the run are cut to; `CutTextSharesSlot` shows why.
- BanNames.RunsRefineTheMapOutside: says nothing of the texts that over-long names of the run are cut to, beyond how many slots they take; `LongNamesAreBannedTwice` shows why.
- DigestFile.AbsorbRange: reads that hit a premature end of file or a hard error are not modelled; the C loop has no clean exit from them.
- DigestRuns.AnswersAreDirectDigests: assumes that a file's content is a function of its path and modification time.
- TallyFile.File.LookupRecord: takes a name field without a NUL to end after its 81 bytes, where the C comparison reads on into the record's other fields.
- TallyRuns.Run: assumes that what is appended is appended whole; `ShortCreateBreaksTheFile` shows that the condition is exact for one append.
- DeflateStream.Reader.Refill: follows the output side only; compressed input that inflate leaves unread is overwritten by the next network read in the C and is not tracked.
- DeflateStream.RunWrites: a socket that takes no byte and reports no error for ever is not modelled.
- mod_ban: shared memory, file locks, disconnecting sessions, and the memcache, Redis, tpl and JSON back ends.
- mod_digest: command handlers, OpenSSL's own algorithms, the digest computed during a transfer, notes and logging.
- mod_quotatab_file: the limit table, whose read path is the same with other fields, and the header check.
- mod_log_forensic: memory pools, metadata and prefixes around the messages.
- mod_ratio: choosing the rule from the configuration, saved statistics files, and overflow of the file counters.
- mod_ifversion: regular-expression matching and the operator dispatch around the comparison.
- Parallel processes: every model is of one process at a time.
