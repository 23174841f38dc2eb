# HTTrack: verification of the data structures and decoders

A Dafny model of the parts of HTTrack whose correctness is hardest to see from the code, and proofs
of what they promise.

- **Coucal** (`coucal.c`), the hashtable of the whole program: two candidate slots per key, cuckoo
  displacement, an overflow stash of 16 items, in-place doubling, a string pool that is compacted and
  moved under the table, removal with back-fill from the stash, and an enumerator that tolerates
  removals. `CoucalTypes`, `CoucalTable`, `CoucalMap`, `CoucalPool` and `CoucalLayout` hold the
  specification and its lemmas on values; `CoucalHashtable` is the object with its fields updated in place; `CoucalRuns` is
  about whole runs and enumerations. The hash is an arbitrary function of the key: nothing is assumed
  about it, so the two fatal assertions an unlucky hash can reach are outcomes (`StashFull`,
  `TableTooLarge`), with the exact layouts in which a write ends in them and a run that reaches each;
  every other assertion of the code is proved. Where every entry is after a run is a function of the
  operations and the hash.
- **UTF-8** (`htscharset.c`), module `Utf8`: the reader and writer of sequences of one to six bytes
  (section 2 of RFC 2279), the UCS-4 conversions, the validity check and the length.
- **Entities** (`htsencoding.c`), module `Entities`: the HTML entity decoder that copies blindly and
  rolls back, proved against a parse-ahead specification, also when it works on top of its source.
- **Percent decoding** (`htsencoding.c`), module `UrlDecode`: the same technique with a pending UTF-8
  sequence.
- **Filters** (`htsfilters.c`): the backtracking wildcard matcher with its size tests, proved sound and
  complete for a declarative match relation, and the filter list (`Filters`); the patterns as they are
  written and what the writing means, which is what the matcher reads (`FilterSyntax`).
- `Numerals` and `Words`: how numbers are written to base 10 and 16, and the numbers that 32-bit words
  stand for; what the decoders read is stated against the written numbers.
- **Chunked transfers** (`htsback.c`), module `Chunks`: the decoder of chunked bodies (section 3.6.1 of
  RFC 2616) as the passes of the download loop.
- **Sockets** (`htsback.c`), module `Sockets`: the table of transfer slots that passes keep-alive
  connections from slot to slot.
- **Host names** (`htscharset.c`), module `Idna`: the segment-wise conversion around Punycode
  (RFC 3492), which is itself a parameter.

Code that updates objects and buffers is modelled by classes, arrays and loops; each method is proved
against a specification function or predicate on values, and the lemmas are about those.

These results say exactly where a promise of the code stops:

- decoding a percent-encoded text gives the text back if and only if it has no control character
  (`UrlDecode.DecodingInvertsEncoding`);
- the percent decoder stays within the `max` + 1 characters its callers provide (`htsname.c:318`,
  `htsparse.c:2050`) on a well-formed URL if and only if that is not decoded to exactly one character
  too many (`UrlDecode.StaysWithin`): the copy of a completed sequence is not checked against `max`
  (`htsencoding.c:298-299`). On text that is not well formed a sequence that is pending across an escape
  takes the position of that escape (`htsencoding.c:271-272`) although the write position has been rolled
  back below it, so that `UrlDecode.LeavesByThree` ends three characters behind those `max` allows; no
  text needs more than `max` + 6 (`UrlDecode.NearMax`);
- `fa_strjoker` called without a size (`htswizard.c:523`, `htswizard.c:526`, `htswizard.c:875`) hands an
  unset variable to the size tests. The verdict does not depend on it if and only if the filters with a
  size test that could decide agree with the last one without (`Filters.UnsetSize`);
  `FilterSyntax.UnsetDecides` is a list that depends on it;
- of several size tests in one class only the first counts, and what follows it is never looked at
  (`FilterSyntax.SecondTestIgnored`), where a comment of the source promises that all do;
- a backslash in a class does not escape the character behind it, as a comment promises, but makes the
  matcher skip the character two places in front of it (`htsfilters.c:236-241`). A list is read as the set
  it lists if and only if every skipped character is listed again, the comma is listed too, and the
  closing bracket is not taken for a character (`FilterSyntax.ReadAsSet`). `*[a,\]]` loses its `a`
  (`FilterSyntax.LetterLost`), and `*[x]\y]` goes on behind its bracket (`FilterSyntax.ClassRunsOn`);
- the displacement loop gives up at the first hash that equals the one it began with, even when a free slot
  could be reached; it finds a place if and only if its kicks come to a free slot before
  (`CoucalTable.PlaceFound`, `CoucalTable.SameHashGivesUp`);
- converting a host name to IDNA and back gives it back if and only if none of its ASCII segments looks
  like an encoded one already (`Idna.RoundTrip`);
- a message cut short is taken for complete if and only if the cut is not inside the data of a chunk
  (`Chunks.CutMessage`);
- a socket gets lost, neither closed nor held by a slot, if and only if a slot is given up while it holds
  the socket and is marked as a local file (`Sockets.RunLoses`, `Sockets.Backlog.Run`); the not-modified
  branch of the download loop marks connected slots (`htsback.c:3571-3579`), and `Sockets.LosingRun` is a
  run that loses a socket.

## Model

| member | source | states |
|---|---|---|
| CoucalTypes.LowBits | httrack_x64/httrack/src/coucal.c:740-749 | the position of a hash in a table of `2**lg` slots is the number its low `lg` bits write, whatever the others are |
| CoucalTypes.PositionAfterDoubling | httrack_x64/httrack/src/coucal.c:740-749 | the position of a hash in a table of twice the size is the old position, or that plus the old size, according to one bit of the hash |
| CoucalTable.LiveUpdate | httrack_x64/httrack/src/coucal.c:927-935 | how the multiset of occupied items changes when one slot is overwritten |
| CoucalTable.KickConserves | httrack_x64/httrack/src/coucal.c:910-960 | every kick of the displacement loop conserves the items of the table plus the one in hand, every item stays at one of its two positions, and the "unexpected position" assertion is never reached |
| CoucalTable.PlaceByHashes | httrack_x64/httrack/src/coucal.c:883-960 | whether the displacement finds a place depends on the free slots and the hashes alone: not on names, values, or where the pool is |
| CoucalTable.KickArrives | httrack_x64/httrack/src/coucal.c:910-960 | when the displacement loop finds a place, its kicks are a path of slots: each item kicked out goes to its other position, which differs from the slot it was kicked from unless its two positions coincide; the path ends at a free slot, and the table is the one the moves along it give |
| CoucalTable.ArrivingSettles | httrack_x64/httrack/src/coucal.c:910-960 | when such a path comes to a free slot in time, before the initial hash is met again, the loop finds a place |
| CoucalTable.PlaceFound | httrack_x64/httrack/src/coucal.c:883-960 | there is a place for new hashes if and only if one of their two slots is free or such a path from the first one, with no more steps than slots, comes to a free slot |
| CoucalTable.AddedArrives | httrack_x64/httrack/src/coucal.c:883-960 | after an insertion with displacement, every item on the path that moved once is at its other position, and no other slot has changed |
| CoucalTable.GivesUp | httrack_x64/httrack/src/coucal.c:936-960 | when both slots are taken, and the first one by an item whose other hash is the new first hash, there is no place, whatever the rest of the table is |
| CoucalTable.SameHashGivesUp | httrack_x64/httrack/src/coucal.c:952-958 | the loop compares hashes and not positions: of two tables that differ in one hash of the same position, it gives up on one although a free slot could be reached, and finds it in the other |
| CoucalTable.AddedConserves | httrack_x64/httrack/src/coucal.c:883-960 | the same for a whole insertion into the table: settled, or an item is left homeless and nothing else is lost |
| CoucalTable.AddedKeepsAll | httrack_x64/httrack/src/coucal.c:962-974 | with the homeless item in the stash, table and stash hold exactly the old items and the new one |
| CoucalTable.LiveSplit | httrack_x64/httrack/src/coucal.c:1089-1122 | splitting every slot between the two halves keeps the items, whatever the choice per slot |
| CoucalTable.DoubledConserves | httrack_x64/httrack/src/coucal.c:1072-1122 | doubling loses no item and leaves every item at one of its positions in the larger table |
| CoucalTable.MergedConserves | httrack_x64/httrack/src/coucal.c:1128-1143 | re-adding the stash to the doubled table conserves all items and never makes the stash larger than it was, so it cannot overflow |
| CoucalTable.MergedWhole | httrack_x64/httrack/src/coucal.c:1137-1146 | the whole merge: table in order, items conserved, stash not larger |
| CoucalTable.HomeStaysPlaced | httrack_x64/httrack/src/coucal.c:1308-1328 | an item pulled into a slot that is one of its positions keeps the table in order |
| CoucalMap.MovingKeepsMeaning | httrack_x64/httrack/src/coucal.c:910-1153 | two arrangements of the same items stand for the same map |
| CoucalMap.RelocatingKeepsMeaning | httrack_x64/httrack/src/coucal.c:519-600 | moving the strings of the pool, with the names following, changes neither the map nor the entry of any slot |
| CoucalMap.AddingAnEntry | httrack_x64/httrack/src/coucal.c:862-871 | a new item for an absent key adds exactly that entry |
| CoucalMap.ReplacingAValue | httrack_x64/httrack/src/coucal.c:833-860 | overwriting the value of the item of a key changes exactly that entry |
| CoucalMap.RemovingAnEntry | httrack_x64/httrack/src/coucal.c:817-823 | clearing the slot of a key removes exactly that entry, and its string is then used by no slot |
| CoucalMap.InsertedMeans | httrack_x64/httrack/src/coucal.c:862-871 | the table and stash after an insertion with displacement stand for the map with the new entry |
| CoucalMap.NotThere | httrack_x64/httrack/src/coucal.c:1178-1208 | when both positions and the whole stash miss, the key is absent or the hashes are not its own |
| CoucalMap.MatchMeans | httrack_x64/httrack/src/coucal.c:501-517 | a slot that matches a key holds the entry the map has for it |
| CoucalMap.ClosingAGap | httrack_x64/httrack/src/coucal.c:1281-1284 | closing a gap in the stash keeps the map and moves entries only to earlier places |
| CoucalMap.MovingForward | httrack_x64/httrack/src/coucal.c:1308-1328 | moving a stash item into a free slot in front of it keeps the map and moves entries only to earlier places |
| CoucalMap.PullingForward | httrack_x64/httrack/src/coucal.c:1308-1328 | the same together with closing the gap it leaves |
| CoucalMap.NothingToPull | httrack_x64/httrack/src/coucal.c:1306-1328 | when only the freed slot has changed and no stash item may live there, no stash item may live in any slot the removal has freed |
| CoucalMap.EntriesByHashes | httrack_x64/httrack/src/coucal.c:501-517 | two arrangements with the same entries, slot by slot, have the same hashes |
| CoucalMap.EntryCount | httrack_x64/httrack/src/coucal.c:1046-1057 | the map has as many entries as there are occupied slots in table and stash |
| CoucalMap.FreeSlot | httrack_x64/httrack/src/coucal.c:1038-1057 | fewer entries than table slots means that there is a free slot |
| CoucalMap.Crowded | httrack_x64/httrack/src/coucal.c:875-878 | when all keys have the same two hashes and the two coincide, the table has room for one entry and the stash has to hold the others |
| CoucalMap.ValuesRemove | httrack_x64/httrack/src/coucal.c:796-806 | removing an entry takes exactly its value out of the values owned by the table |
| CoucalMap.ValuesWrite | httrack_x64/httrack/src/coucal.c:833-860 | writing an entry puts its value in and takes the replaced value out |
| CoucalMap.DrainingStep | httrack_x64/httrack/src/coucal.c:1489-1513 | releasing one slot takes its entry out of the ones still to be released |
| CoucalPool.Appending | httrack_x64/httrack/src/coucal.c:684-691 | a string copied to the watermark is laid out properly and disturbs no other |
| CoucalPool.Releasing | httrack_x64/httrack/src/coucal.c:714-716 | zeroing the first byte of a freed string disturbs no other |
| CoucalPool.TotalRemove | httrack_x64/httrack/src/coucal.c:714-716 | freeing a string takes its length and NUL out of the characters in use |
| CoucalPool.CopyingWhole | httrack_x64/httrack/src/coucal.c:619-624 | copying the pool to a larger block keeps every string |
| CoucalPool.RelocatingOne | httrack_x64/httrack/src/coucal.c:549-584 | one step of the compaction: the string is now at the watermark, the others are where they were |
| CoucalPool.NextToMove | httrack_x64/httrack/src/coucal.c:555-571 | the next string to move is still in the old pool and fits below the number of used characters: the relocation assertions hold |
| CoucalPool.RelocatingEnd | httrack_x64/httrack/src/coucal.c:578-589 | after the last slot every string has been moved once and the pool has no holes |
| CoucalPool.RebasingStep | httrack_x64/httrack/src/coucal.c:633-641 | recomputing one address keeps its offset, and the assertion that it lies in the old pool holds |
| CoucalPool.RebasingEnd | httrack_x64/httrack/src/coucal.c:643-652 | with all addresses recomputed the map and every slot's entry are the same |
| CoucalLayout.KickAlike | httrack_x64/httrack/src/coucal.c:910-960 | the displacement treats items alike that stand for the same entries under the same hashes |
| CoucalLayout.PutIsAdded | httrack_x64/httrack/src/coucal.c:883-974 | an insertion into the real table and stash leads to the layout that the old layout, the key and the hash function determine |
| CoucalLayout.GrownIsMerged | httrack_x64/httrack/src/coucal.c:1072-1146 | so do doubling and the merge of the stash |
| CoucalLayout.RewrittenIsStored | httrack_x64/httrack/src/coucal.c:833-860 | so does replacing a value |
| CoucalLayout.FirstIsFirst | httrack_x64/httrack/src/coucal.c:1306-1328 | the stash item the back-fill takes is the one the layout says |
| CoucalLayout.PulledEntries | httrack_x64/httrack/src/coucal.c:1308-1328 | and moving it gives the entries the layout says |
| CoucalLayout.Deciding | httrack_x64/httrack/src/coucal.c:883-974 | whether there is a place for a key, and which keys there are, can be seen in the layout |
| CoucalLayout.PutStash | httrack_x64/httrack/src/coucal.c:962-974 | the stash grows by one exactly when there is no place for the new key |
| CoucalLayout.PutHome | httrack_x64/httrack/src/coucal.c:887-909 | a new entry goes to its first position if that is free, else to its second one if that is free, and nothing else moves |
| CoucalHashtable.Coucal.Init | httrack_x64/httrack/src/coucal.c:1370-1401 | a new table is in order and stands for the empty map |
| CoucalHashtable.Coucal.New | httrack_x64/httrack/src/coucal.c:1354-1373 | `coucal_new`: null exactly when the size is beyond the hash size, otherwise the smallest table that is large enough |
| CoucalHashtable.Coucal.RelocateString | httrack_x64/httrack/src/coucal.c:549-576 | moves one string to the new watermark, with its exact bytes and NUL |
| CoucalHashtable.Coucal.CompactPool | httrack_x64/httrack/src/coucal.c:519-600 | compaction removes all holes, keeps the map and the entry of every slot, and passes its assertions |
| CoucalHashtable.Coucal.ReallocPool | httrack_x64/httrack/src/coucal.c:602-659 | growing the pool keeps the map and every entry, compacting exactly when a quarter of it is holes |
| CoucalHashtable.Coucal.DupName | httrack_x64/httrack/src/coucal.c:661-692 | the copy of a key is a string of its own in the pool; the pool moves exactly when the key does not fit, and then has the first of the capacities 256, 512, .. that is large enough; the empty key takes no room |
| CoucalHashtable.Coucal.FreeKey | httrack_x64/httrack/src/coucal.c:702-728 | frees exactly the characters of the key, compacts exactly when the pool is less than half used, and keeps every remaining entry |
| CoucalHashtable.Coucal.EraseString | httrack_x64/httrack/src/coucal.c:714-716 | one string is released, its length and NUL no longer counted, the others untouched |
| CoucalHashtable.Coucal.Matches | httrack_x64/httrack/src/coucal.c:501-517 | a slot matches if and only if it is occupied, has the same two hashes and the same key text |
| CoucalHashtable.Coucal.Find | httrack_x64/httrack/src/coucal.c:1178-1208 | two positions and the stash are enough: a slot is found if and only if the key is in the map and the hashes are its own |
| CoucalHashtable.Coucal.FetchValueHashes | httrack_x64/httrack/src/coucal.c:1178-1208 | gives the value of the key in the map, and nothing for an absent key or foreign hashes |
| CoucalHashtable.Coucal.ReadValue | httrack_x64/httrack/src/coucal.c:1210-1226 | gives exactly what the map has for the key |
| CoucalHashtable.Coucal.ReadKey | httrack_x64/httrack/src/coucal.c:1534-1555 | a caller that reads the name of an item gets the key of its entry |
| CoucalHashtable.Coucal.Count | httrack_x64/httrack/src/coucal.c:1472-1476 | the count is the number of entries of the map and of occupied slots, less than the table size, so the table always has a free slot |
| CoucalHashtable.Coucal.Displace | httrack_x64/httrack/src/coucal.c:910-960 | the displacement loop in place does what the specification of a kick sequence says |
| CoucalHashtable.Coucal.AddItem | httrack_x64/httrack/src/coucal.c:883-1027 | conserves all items; fails exactly when the stash is full and the displacement ends with an item in hand |
| CoucalHashtable.Coucal.Double | httrack_x64/httrack/src/coucal.c:1059-1122 | doubling in place keeps all items, and its two assertions always hold |
| CoucalHashtable.Coucal.SplitSlot | httrack_x64/httrack/src/coucal.c:1089-1120 | one slot: its item stays or moves to the slot that mirrors it, which is empty |
| CoucalHashtable.Coucal.MergeStash | httrack_x64/httrack/src/coucal.c:1128-1153 | the merge never fails, keeps all items and does not make the stash larger |
| CoucalHashtable.Coucal.Grow | httrack_x64/httrack/src/coucal.c:1059-1153 | doubling and merging keep the map, and the result is exactly the merge of the old stash into the doubled table |
| CoucalHashtable.Coucal.CountIn | httrack_x64/httrack/src/coucal.c:1038-1077 | the table grows exactly when it is half full or the stash is, to the layout of the merge, and fails exactly when it should grow beyond the hash size |
| CoucalHashtable.Coucal.ReplaceValue | httrack_x64/httrack/src/coucal.c:833-860 | the entry has the new value and the old one has been released |
| CoucalHashtable.Coucal.InsertNew | httrack_x64/httrack/src/coucal.c:862-871 | adds exactly the new entry, where the layout says; fails exactly when the stash is full and there is no place for the hashes of the key |
| CoucalHashtable.Coucal.ReplaceOrInsert | httrack_x64/httrack/src/coucal.c:825-872 | replaces if and only if the key was there; the map gets exactly this entry; the old value is released; fails exactly on a new key with no place and a full stash |
| CoucalHashtable.Coucal.WriteValue | httrack_x64/httrack/src/coucal.c:1033-1159 | unless it ends fatally the invariant holds again, the map has exactly the new entry, the answer says whether the key was absent, and the next layout is `AfterWrite` of the last; each fatal end happens exactly in the layouts `WriteEnds` names |
| CoucalHashtable.Coucal.DeleteItem | httrack_x64/httrack/src/coucal.c:804-823 | exactly one entry goes, its value is released, all other entries stay in their slots even when the pool is compacted |
| CoucalHashtable.Coucal.CloseGap | httrack_x64/httrack/src/coucal.c:1281-1284 | the stash without its item `i`, in order |
| CoucalHashtable.Coucal.RemoveHashes | httrack_x64/httrack/src/coucal.c:1254-1295 | removes the entry if and only if the key is there under these hashes, and tells which slot became free |
| CoucalHashtable.Coucal.Backfill | httrack_x64/httrack/src/coucal.c:1306-1328 | the first stash item that may live in the free slot moves there, and nothing happens if there is none |
| CoucalHashtable.Coucal.Remove | httrack_x64/httrack/src/coucal.c:1297-1334 | removes exactly the entry of the key, answers whether it was there, releases its value, leaves the other entries of the table in place, moves entries only to earlier places, leaves no stash item that could live in a slot it has freed, and leads to the layout `AfterRemove` |
| CoucalHashtable.Coucal.Delete | httrack_x64/httrack/src/coucal.c:1489-1522 | every value still in the map is released exactly once |
| CoucalRuns.WriteBalances | httrack_x64/httrack/src/coucal.c:834-861 | a write keeps the balance: values written are the values stored and the values released |
| CoucalRuns.RemoveBalances | httrack_x64/httrack/src/coucal.c:1254-1334 | so does a remove |
| CoucalRuns.Perform | httrack_x64/httrack/src/coucal.c:1033-1334 | one operation answers, changes the map and moves the entries as the specification says, or ends fatally exactly when `StopsAt` holds of the layout |
| CoucalRuns.FirstStops | httrack_x64/httrack/src/coucal.c:1033-1159 | the operation a run stops at is the first write that ends in a fatal assertion, in the layout of that moment |
| CoucalRuns.Run | httrack_x64/httrack/src/coucal.c:1033-1334 | any sequence of writes, reads and removes, with any hash, answers and changes the map as a finite map does; the layout it leads to and the operation it stops at are functions of the first layout, the operations and the hash; the values balance |
| CoucalRuns.RunFromNew | httrack_x64/httrack/src/coucal.c:1362-1522 | from `coucal_new` to `coucal_delete` with a value free handler: the table has released every value written exactly as often as it was written, unless the run stops early, which it does exactly at its first fatal write |
| CoucalRuns.FillStash | httrack_x64/httrack/src/coucal.c:962-1027 | the first fatal end is reached: with a hash of one value, the run of 18 writes of different keys stops, in a layout whose stash is full |
| CoucalRuns.FourWrites | httrack_x64/httrack/src/coucal.c:910-960 | four writes that kick two items, the second one out of the slot of the first: every entry is then in the table, where the moves have brought it |
| CoucalRuns.OutgrowTable | httrack_x64/httrack/src/coucal.c:1059-1077 | so is the second: in the largest table the run of nine such writes stops at a doubling too many |
| CoucalRuns.Enumerator.Next | httrack_x64/httrack/src/coucal.c:1534-1555 | yields the next occupied slot at or after the cursor, skipping none, ends only when there is none, and says where the cursor is then |
| CoucalRuns.NextIs | httrack_x64/httrack/src/coucal.c:1534-1555 | this is the next entry of the layout |
| CoucalRuns.AllKeys | httrack_x64/httrack/src/coucal.c:1534-1555 | the keys of all slots in order are exactly the keys of the map |
| CoucalRuns.KeysBelowDistinct | httrack_x64/httrack/src/coucal.c:1534-1555 | the keys met up to any slot are all different |
| CoucalRuns.EnumerateAll | httrack_x64/httrack/src/coucal.c:1526-1555 | without changes every entry is yielded exactly once |
| CoucalRuns.StillNew | httrack_x64/httrack/src/coucal.c:1297-1334 | when entries only move to earlier places, what lies ahead of the cursor has not been yielded |
| CoucalRuns.ProgressTake | httrack_x64/httrack/src/coucal.c:1534-1555 | a step of the enumeration passes no entry of the table that is still there, and when it yields nothing all of them have been yielded |
| CoucalRuns.EnumerateWhileRemoving | httrack_x64/httrack/src/coucal.c:1526-1555 | with any removals in between, each step finds the entry that the layout of its moment has next; no entry is found twice, and each was in the map with that value and had not been removed before; once a step finds nothing, or there have been more steps than entries, every entry of the table that is not removed has been found |
| Utf8.Nlz8Counts | httrack_x64/httrack/src/htscharset.c:704-726 | `nlz8` counts leading zero bits, except that it gives 7 for zero |
| Utf8.EmittedJoins | httrack_x64/httrack/src/htscharset.c:738-785 | the bytes written for a code below 2^31 are one sequence, and joining its bits gives the code |
| Utf8.EmitLayout | httrack_x64/httrack/src/htscharset.c:756-785 | for every code below 2^31 the bytes are those of the table in section 2 of RFC 2279: the digits of the code to base 64 behind the marker of each byte |
| Utf8.EmitSize | httrack_x64/httrack/src/htscharset.c:756-785 | how many bytes each code takes |
| Utf8.ReadLoopJoins | httrack_x64/httrack/src/htscharset.c:788-806 | the reading loop succeeds if and only if all the continuation bytes are there |
| Utf8.ReadsSequences | httrack_x64/httrack/src/htscharset.c:808-842 | the reader succeeds if and only if a whole sequence is there, takes as many bytes as the lead byte says and yields its code |
| Utf8.SequenceRewrites | httrack_x64/httrack/src/htscharset.c:756-842 | writing the code of a sequence never takes more bytes, and gives its bytes if it takes as many |
| Utf8.ReadAfterWrite | httrack_x64/httrack/src/htscharset.c:1247-1309 | for every code below 2^31, reading what was written gives the code and the length, whatever stands around it |
| Utf8.WriteAfterRead | httrack_x64/httrack/src/htscharset.c:1247-1286 | writing what was read gives the bytes back if and only if they were the shortest form |
| Utf8.ReadUnicode | httrack_x64/httrack/src/htscharset.c:788-842 | the reader with its loop computes the specification |
| Utf8.ReadUtf8 | httrack_x64/httrack/src/htscharset.c:1261-1286 | the code and the length the lead byte announces, or 0 if and only if nothing can be read |
| Utf8.WriteUtf8 | httrack_x64/httrack/src/htscharset.c:1247-1259 | writes the bytes of the code if they leave one byte of room, and returns 0 otherwise; nothing outside is touched |
| Utf8.StringRoundTrip | httrack_x64/httrack/src/htscharset.c:1170-1245 | UCS-4 to UTF-8 to UCS-4 is the identity on codes below 2^31, and what is written can be read everywhere |
| Utf8.Reencoding | httrack_x64/httrack/src/htscharset.c:1170-1245 | UTF-8 to UCS-4 to UTF-8 of a readable string never gets longer, and gives the string back if it does not get shorter |
| Utf8.Ucs4ToUtf8 | httrack_x64/httrack/src/htscharset.c:1224-1245 | the bytes of all codes in order, with a final NUL |
| Utf8.Utf8ToUcs4 | httrack_x64/httrack/src/htscharset.c:1170-1202 | the codes of all sequences in order, U+FFFD for what cannot be read, with their number |
| Utf8.IsStringUtf8 | httrack_x64/httrack/src/htscharset.c:1204-1222 | true if and only if every sequence can be read |
| Utf8.StringLengthUtf8 | httrack_x64/httrack/src/htscharset.c:605-617 | the number of leading bytes |
| Utf8.EncodedLength | httrack_x64/httrack/src/htscharset.c:605-617 | for codes without zero the length is the number of codes, and there is no NUL in the bytes |
| Utf8.ConvertThereAndBack | httrack_x64/httrack/src/htscharset.c:1170-1245 | the converters one after the other: the codes come back, the bytes pass the validity check and the length is the number of codes |
| Entities.EntityNoLonger | httrack_x64/httrack/src/htsencoding.c:91-140 | the bytes of a decoded entity are never more than its text, for every number and every table entry |
| Entities.NumberNoLonger | httrack_x64/httrack/src/htsencoding.c:142-166 | the same for numbers, with 32-bit wrap-around |
| Entities.NeverLonger | httrack_x64/httrack/src/htsencoding.c:63-199 | the unescaped text is never longer than the text, and fits wherever the text does |
| Entities.WrittenCode | httrack_x64/httrack/src/htsencoding.c:142-166 | for every code below 2^32 - 1, `#` and its decimal text, or `#x` and its hexadecimal text in any mixture of cases, give the code; the texts are written by repeated division |
| Entities.WrittenEntity | httrack_x64/httrack/src/htsencoding.c:91-140 | so anywhere in a text such an entity for a code below 2^31 is replaced by the bytes of the character, except that 0 stays as it is written |
| Entities.TableHashes | httrack_x64/httrack/src/htsentities.h:20-21 | the hash of a name is the one of the generated table |
| Entities.ScanDigit | httrack_x64/httrack/src/htsencoding.c:142-166 | reading one more character of a number: the value goes on, or no entity can come of it |
| Entities.ScanName | httrack_x64/httrack/src/htsencoding.c:167-184 | reading one more character of a name: the hash goes on, or no entity can come of it |
| Entities.ScannedCode | httrack_x64/httrack/src/htsencoding.c:91-107 | at the `;` the variables give the code of the parse-ahead specification |
| Entities.DeadScan | httrack_x64/httrack/src/htsencoding.c:142-184 | when the decoder gives up, the specification has no entity there |
| Entities.StepDecoded | httrack_x64/httrack/src/htsencoding.c:109-140 | the roll-back replaces the copied text by the bytes of the entity, and fails to only when the specification does not fit |
| Entities.WriteEntity | httrack_x64/httrack/src/htsencoding.c:109-140 | writes the bytes at the roll-back position without touching what is still to be read |
| Entities.UnescapeEntities | httrack_x64/httrack/src/htsencoding.c:63-203 | returns 0 if and only if the unescaped text fits, and then the destination is exactly the parse-ahead specification with its NUL; the same when source and destination are the same buffer |
| Entities.UnescapeBothWays | httrack_x64/httrack/src/htsencoding.c:63-203 | decoding in place gives the same bytes and result as decoding to another buffer |
| UrlDecode.NeverLonger | httrack_x64/httrack/src/htsencoding.c:205-320 | for every input whatsoever the output is no longer than the input, and overflow is reported only when the text is longer than `max` |
| UrlDecode.CollectInBounds | httrack_x64/httrack/src/htsencoding.c:261-303 | a pending sequence never starts so late that its roll-back goes ahead of the read position |
| UrlDecode.RunSequence | httrack_x64/httrack/src/htsencoding.c:261-303 | a UTF-8 sequence, each byte raw or escaped, is replaced by its bytes |
| UrlDecode.AsciiPart | httrack_x64/httrack/src/htsencoding.c:220-259 | a raw or escaped ASCII character: decoded once if printable, kept as it is if not |
| UrlDecode.RunDecodes | httrack_x64/httrack/src/htsencoding.c:205-320 | on every URL whose bytes, raw or escaped, are readable UTF-8 the decoder computes the part-by-part specification, overflows exactly when the URL does not fit, and leaves a destination exactly when the whole decoded URL is as long as that |
| UrlDecode.DecodedEscapes | httrack_x64/httrack/src/htsencoding.c:237-250 | the fully escaped text decodes to the text if and only if it has no byte below 32 |
| UrlDecode.EncodedText | httrack_x64/httrack/src/htsencoding.c:42-51 | the escapes are `%` and two digits of literal tables, in upper or lower case each, three characters a byte |
| UrlDecode.EscapesFit | httrack_x64/httrack/src/htsencoding.c:237-311 | escapes of printable ASCII fit if and only if `max` is more than the length of the decoded text, or there are none |
| UrlDecode.DecodingInvertsEncoding | httrack_x64/httrack/src/htsencoding.c:205-324 | percent decoding inverts percent encoding of readable UTF-8, whatever the case of each digit, with no double decoding, exactly when there is no control character; it overflows exactly when the escapes do not fit, and stays within `max` + 1 characters |
| UrlDecode.NearMax | httrack_x64/httrack/src/htsencoding.c:261-303 | for every text whatsoever nothing is written behind `max` + 5 |
| UrlDecode.RoomEnough | httrack_x64/httrack/src/htsencoding.c:205-320 | so a destination longer than the text, or than `max` + 5, is never left |
| UrlDecode.StaysWithin | httrack_x64/httrack/src/htsencoding.c:290-311 | a well-formed URL stays within `max` + 1 characters if and only if it is not decoded to exactly one more than `max`; it never needs more than `max` + 2 |
| UrlDecode.SpillsAtEnd | httrack_x64/httrack/src/htsencoding.c:293-299 | that happens only when a sequence whose last byte is not escaped ends the URL |
| UrlDecode.LeavesByOne | httrack_x64/httrack/src/htsencoding.c:293-311 | such a URL: two bytes with `max` 1 |
| UrlDecode.LeavesByThree | httrack_x64/httrack/src/htsencoding.c:266-299 | text that is not well formed can leave the destination by more: a sequence pending across an escape goes on at a position that has been rolled back already |
| UrlDecode.ClassifyCharacter | httrack_x64/httrack/src/htsencoding.c:216-259 | the first half of the loop body follows the specification |
| UrlDecode.CollectByte | httrack_x64/httrack/src/htsencoding.c:261-303 | the UTF-8 half of the loop body follows the specification, on the real buffers |
| UrlDecode.UnescapeUrlSpecial | httrack_x64/httrack/src/htsencoding.c:205-320 | for any text with which it stays within the destination, the loop on arrays ends as the specification does, with the text terminated |
| UrlDecode.UnescapeUrl | httrack_x64/httrack/src/htsencoding.c:322-324 | on a well-formed URL the answer is 0 exactly when it fits, and then the destination is exactly the decoded URL; `max` + 1 characters are enough exactly when the URL does not spill |
| UrlDecode.UnescapeEncoded | httrack_x64/httrack/src/htsencoding.c:322-324 | on a percent-encoded text the destination is the text; for ASCII the answer is 0 if and only if it is shorter than `max` or empty |
| Filters.MarkMeans | httrack_x64/httrack/src/htsfilters.c:223-241 | what marking and clearing do to the set of accepted characters, ranges being inclusive |
| Filters.SameLetterMeans | httrack_x64/httrack/src/htsbase.h:94-95 | two characters are the same if and only if they are equal or the two cases of one of the letters A to Z |
| Filters.ToIntMeans | httrack_x64/httrack/src/htsfilters.c:196-203 | the limit of a size test is the number modulo 2^32 as an `int` |
| Filters.SeparatorSkipped | httrack_x64/httrack/src/htsfilters.c:242-243 | a character of a list and a comma or semicolon behind it: the character is marked, and both are passed over |
| Filters.AcceptsCons | httrack_x64/httrack/src/htsfilters.c:263-305 | a pattern accepts a text if and only if its first token takes some beginning of it and the other tokens accept the rest |
| Filters.AcceptsNil | httrack_x64/httrack/src/htsfilters.c:107-114 | an exhausted pattern accepts the empty text and a text that starts with `?` |
| Filters.WordRun | httrack_x64/httrack/src/htsfilters.c:307-329 | a word of the pattern is matched letter by letter, without regard to case |
| Filters.TakesRun | httrack_x64/httrack/src/htsfilters.c:283-297 | a class takes exactly the runs of its characters |
| Filters.ClassFirst | httrack_x64/httrack/src/htsfilters.c:263-305 | a pattern that starts with a class matches if and only if some run of the class can be taken and the rest of the pattern matches behind it |
| Filters.MatchWord | httrack_x64/httrack/src/htsfilters.c:307-329 | a pattern that starts with a word matches if and only if the relation holds |
| Filters.MatchClass | httrack_x64/httrack/src/htsfilters.c:263-305 | the backtracking loop over a class finds a match if and only if there is one |
| Filters.StrJoker | httrack_x64/httrack/src/htsfilters.c:104-332 | the matcher terminates and succeeds if and only if the declarative relation holds, with or without a size; the place it returns is behind the shortest runs the leading classes can take; the size becomes the limit of the test that ended a match, and is kept otherwise |
| Filters.FoundOnce | httrack_x64/httrack/src/htsfilters.c:97-100 | that place is the only one of its kind |
| Filters.PatternBehind | httrack_x64/httrack/src/htsfilters.c:67-80 | a filter is a sign, `mime:` if it is of that kind, and the pattern, with nothing left out |
| Filters.FaStrJoker | httrack_x64/httrack/src/htsfilters.c:57-94 | the verdict is 1 if and only if the last matching filter of the requested kind begins with `+`, -1 if it begins with anything else, and `depth` is its index; 0 if and only if none matches; the size becomes the limit of the last matching filter whose test has another one; without a size every call compares an unset variable, whose values are a parameter |
| Filters.DecidedBy | httrack_x64/httrack/src/htsfilters.c:65-90 | without a size, the filter that decides is the last one that matches whatever the size is, or one with a size test behind it |
| Filters.UnsetSize | httrack_x64/httrack/src/htsfilters.c:57-94 | without a size, the reported filter does not depend on the unset variable if and only if no filter with a size test can decide, and the verdict if and only if those that can agree with the last one that needs no size |
| Filters.StrJokerFind | httrack_x64/httrack/src/htsfilters.c:338-348 | succeeds if and only if the pattern, called without a size, matches somewhere in the text, and reports the first such place |
| FilterSyntax.ReadsList | httrack_x64/httrack/src/htsfilters.c:186-245 | every written list of characters and ranges is read as the set of its characters and of those of its ascending ranges, up to its bracket, except that a character with a backslash two characters on is skipped for the comma or bracket behind it, and a class whose bracket is taken so goes on |
| FilterSyntax.ReadAsSet | httrack_x64/httrack/src/htsfilters.c:186-245 | a list is read as the set it lists, up to its bracket, if and only if no backslash harms it and its bracket is not taken for a character |
| FilterSyntax.SameIfHarmless | httrack_x64/httrack/src/htsfilters.c:235-241 | a backslash harms no list in which every skipped character is listed again and the comma is listed, and every other one |
| FilterSyntax.ReadsPiece | httrack_x64/httrack/src/htsfilters.c:122-261 | stars, classes and reserved names as they are written are read as their tokens, and reading goes on right behind them |
| FilterSyntax.ReadsSigned | httrack_x64/httrack/src/htsfilters.c:200-222 | blanks, a sign or none, and digits are read as the number they write |
| FilterSyntax.OnlySigned | httrack_x64/httrack/src/htsfilters.c:200-222 | and a size test is made only if such a text stands behind the `<` or `>` |
| FilterSyntax.ReadsEnd | httrack_x64/httrack/src/htsfilters.c:188-222 | `*[]` and the size tests end a pattern, with the number they write |
| FilterSyntax.NumberWritten | httrack_x64/httrack/src/htsfilters.c:196-203 | the number of the decimal text of n, written by repeated division, is n |
| FilterSyntax.ParseWritten | httrack_x64/httrack/src/htsfilters.c:104-332 | every well-formed written pattern is read as the tokens of its pieces, one by one, as backslashes leave them, and its end |
| FilterSyntax.TakesStands | httrack_x64/httrack/src/htsfilters.c:263-305 | the token of a piece takes exactly the texts the piece stands for |
| FilterSyntax.WrittenMatches | httrack_x64/httrack/src/htsfilters.c:104-332 | a written pattern matches exactly the texts that what is read in its place means |
| FilterSyntax.HarmlessMeans | httrack_x64/httrack/src/htsfilters.c:104-332 | which is what it means as it is written, if no backslash harms its lists |
| FilterSyntax.StrJokerWritten | httrack_x64/httrack/src/htsfilters.c:104-332 | so the matcher succeeds on a written pattern if and only if the text is one it means, as far as no backslash harms its lists |
| FilterSyntax.SecondTestIgnored | httrack_x64/httrack/src/htsfilters.c:195-217 | `*[>10,<100].gif` matches whatever is larger than 10, where the comment on line 42 promises files between 10 and 100 KB |
| FilterSyntax.EscapeIsNoEscape | httrack_x64/httrack/src/htsfilters.c:235-241 | the escaped bracket of the comment on line 236 is read as a class of one backslash and a bracket behind it, so two brackets are not matched |
| FilterSyntax.LetterLost | httrack_x64/httrack/src/htsfilters.c:235-241 | `*[a,\]]` is read as a class of the comma and the backslash: the `a` is lost |
| FilterSyntax.ClassRunsOn | httrack_x64/httrack/src/htsfilters.c:235-241 | in `*[x]\y]` the first bracket is taken for a character, the `x` is lost, and the class goes on to the second bracket |
| FilterSyntax.UnsetDecides | httrack_x64/httrack/src/htsfilters.c:57-94 | a list of one size test whose verdict, without a size, is that of the unset variable |
| Chunks.StepIsSafe | httrack_x64/httrack/src/htsback.c:2877-3204 | on any bytes: never reads past the announced total, makes progress on every pass with data, and ends without error only behind a final chunk with exactly the announced length |
| Chunks.CloseIsSafe | httrack_x64/httrack/src/htsback.c:2940-2960 | a connection closed in the middle of chunk data is an error, and between chunks it is taken for the end |
| Chunks.ReadsLine | httrack_x64/httrack/src/htslib.c:1924-1976 | reading a line of a well-formed message in pieces never goes past its end, and sees it complete exactly when it is |
| Chunks.StepHeader | httrack_x64/httrack/src/htsback.c:3014-3135 | one pass over a size line of a well-formed message |
| Chunks.StepData | httrack_x64/httrack/src/htsback.c:2900-2932 | one pass over the data of a chunk |
| Chunks.StepAt | httrack_x64/httrack/src/htsback.c:2877-3204 | every pass keeps the decoder in step with the message, whatever part of it has arrived |
| Chunks.DecodesExactly | httrack_x64/httrack/src/htsback.c:2877-3204 | for every well-formed message and every fragmentation: no failure, the body is a beginning of the contents, it is all of them once the decoder is ready, and it gets ready once there have been passes enough |
| Chunks.CutMessage | httrack_x64/httrack/src/htsback.c:2940-2960 | a well-formed message of which only a beginning arrives before the peer closes, however it is sliced, is an error exactly if the cut is inside the data of a chunk |
| Chunks.PlaceInside | httrack_x64/httrack/src/htsback.c:2877-3204 | the decoder is inside the data of a chunk exactly when the place in the message is |
| Chunks.HexRead | httrack_x64/httrack/src/htsback.c:3044-3046 | every number written to base 16 by repeated division, digits in upper or lower case each and zeros in front, is read as it was written |
| Chunks.ScansWritten | httrack_x64/httrack/src/htsback.c:3044-3046 | with a sign and `0x` or without: the number modulo 2^32 as a signed `int`, and -1 for what does not fit into 64 bits |
| Chunks.LineAnnounces | httrack_x64/httrack/src/htsback.c:3020-3049 | a size line of blanks, zeros, a written number below 2^31, and an extension announces that number |
| Chunks.HexAnnounces | httrack_x64/httrack/src/htsback.c:3030-3049 | every size below 2^31 in hexadecimal digits, with or without an extension, is a valid size line |
| Chunks.WrittenWellFormed | httrack_x64/httrack/src/htsback.c:2986-3049 | the byte-for-byte message with such size lines is well-formed, and carries its parts |
| Chunks.Slot.FetchLine | httrack_x64/httrack/src/htslib.c:1924-1976 | the byte-by-byte reading of a line computes the specification |
| Chunks.Slot.HandleLine | httrack_x64/httrack/src/htsback.c:3015-3135 | a complete size line or line end changes the slot as the specification says |
| Chunks.Slot.Pass | httrack_x64/httrack/src/htsback.c:2877-3204 | one pass of the loop on the slot is one step of the specification |
| Chunks.Transfer | httrack_x64/httrack/src/htsback.c:2877-3204 | the slot run over the bytes of a well-formed message ends with the contents of the message, whatever the fragmentation |
| Chunks.TransferWritten | httrack_x64/httrack/src/htsback.c:2877-3204 | the same for the bytes of any message whose sizes are written numbers: the body is the parts one after the other |
| Sockets.Dropping | httrack_x64/httrack/src/htsback.c:2491-2514 | a slot that gives up its socket takes exactly that one out of the sockets held |
| Sockets.Taking | httrack_x64/httrack/src/htsback.c:861-877 | a slot that takes a socket no slot holds keeps sockets unshared |
| Sockets.Moving | httrack_x64/httrack/src/htsback.c:861-877 | moving a connection between slots keeps the ownership of every socket |
| Sockets.MarkedUpdate | httrack_x64/httrack/src/htslib.c:2488-2512 | what changing one slot does to the sockets in danger, those of slots marked as files |
| Sockets.CleaningSettles | httrack_x64/httrack/src/htsback.c:2179-2311 | cleaning loses exactly the sockets of finished slots that are marked as files |
| Sockets.HandingOver | httrack_x64/httrack/src/htsback.c:1107-1121 | handing a connection over neither loses a socket nor puts one in danger |
| Sockets.StepLoses | httrack_x64/httrack/src/htsback.c:2179-3912 | any event loses exactly the sockets of the slots it gives up while they are marked as files, and only the download loop puts a socket in danger |
| Sockets.RunLoses | httrack_x64/httrack/src/htsback.c:2179-3912 | over a run a socket is lost if and only if some event gives up a slot that holds it and is marked as a file |
| Sockets.RunKeepsApart | httrack_x64/httrack/src/htsback.c:2179-3912 | none is lost in a run that marks no connected slot as a file |
| Sockets.Finding | httrack_x64/httrack/src/htsback.c:1186-1209 | after a cleaning there is no slot to take if and only if before it every slot was in use, or finished and neither on disk nor fit for the storage |
| Sockets.CountChange | httrack_x64/httrack/src/htsback.c:441-453 | how the number of sockets in use changes with one slot |
| Sockets.SameAddressMeans | httrack_x64/httrack/src/htslib.h:431-463 | two addresses are the same if and only if they are not empty, have the same length, and each two characters are equal or the two cases of one letter |
| Sockets.UsableServes | httrack_x64/httrack/src/htsback.c:1157-1164 | the connections that can be used are the idle ones, not timed out, to an address that is the same in this sense |
| Sockets.FtpMeans | httrack_x64/httrack/src/htsback.c:1936-1942 | the FTP links are the ones that begin with `ftp://`, in any case |
| Sockets.NoneForIt | httrack_x64/httrack/src/htsback.c:1150-1169 | cleaning hands no connection to another address: if no slot has an unexpired socket to an address before it, none can be used for that afterwards |
| Sockets.TakenFrom | httrack_x64/httrack/src/htsback.c:1129-1148 | a connection that is taken over after the cleaning was held before it by a slot with the same address |
| Sockets.OtherHost | httrack_x64/httrack/src/htsback.c:1150-1169 | with idle connections to `A.example` only, a transfer from `b.example` opens a socket |
| Sockets.Backlog.constructor | httrack_x64/httrack/src/htsback.c:70-88 | all slots free, nothing opened |
| Sockets.Backlog.DeleteHttp | httrack_x64/httrack/src/htslib.c:2488-2512 | the slot gives up its socket, which is closed unless the slot is marked as a file |
| Sockets.Backlog.ClearEntry | httrack_x64/httrack/src/htsback.c:1345-1388 | the slot is free, its socket closed |
| Sockets.Backlog.Delete | httrack_x64/httrack/src/htsback.c:1291-1328 | the same, with the ownership of all sockets kept and no transfer touched |
| Sockets.Backlog.LetLive | httrack_x64/httrack/src/htsback.c:834-859 | keeps only the connection, if and only if it is in a state to be kept |
| Sockets.Backlog.Search | httrack_x64/httrack/src/htsback.c:1171-1209 | a free slot, else one taken from an idle connection whose socket is closed, else none; transfers are not touched |
| Sockets.Backlog.MayDelete | httrack_x64/httrack/src/htsback.c:1033-1074 | the slot is freed or keeps its connection alive, exactly by the keep-alive conditions |
| Sockets.Backlog.MoveConnection | httrack_x64/httrack/src/htsback.c:1107-1121 | the connection, and nothing else, moves to the free slot, which keeps it alive |
| Sockets.Backlog.MayDeleteHttp | httrack_x64/httrack/src/htsback.c:1076-1127 | the connection moves to another slot exactly when it may be kept and there is room; otherwise its socket is closed, or lost when the slot is marked as a file |
| Sockets.Backlog.SearchLive | httrack_x64/httrack/src/htsback.c:1150-1169 | the first idle connection that has not timed out and whose address is the same but for the case of letters, and not empty; none is found if and only if there is none |
| Sockets.Backlog.TryLive | httrack_x64/httrack/src/htsback.c:1129-1148 | a transfer takes over an idle connection to its address, equal but for the case of letters, if and only if there is one; the socket changes hands without being closed |
| Sockets.Backlog.CleanFinished | httrack_x64/httrack/src/htsback.c:2184-2277 | afterwards no expired connection and no finished file on disk is left, the other finished slots have changed in their connections only, and no transfer has been touched |
| Sockets.Backlog.ReleaseSockets | httrack_x64/httrack/src/htsback.c:2278-2286 | afterwards no finished slot holds a socket; but for that the finished slots are the same |
| Sockets.Backlog.DropExcess | httrack_x64/httrack/src/htsback.c:2287-2302 | afterwards the number of sockets is within the limit, or no idle connection is left |
| Sockets.Backlog.StoreFinished | httrack_x64/httrack/src/htsback.c:257-349 | moving finished slots to the storage frees exactly those that could be written, touches no transfer and opens nothing |
| Sockets.Backlog.Clean | httrack_x64/httrack/src/htsback.c:2179-2311 | `back_clean` establishes all of the above together, keeps ownership, and loses exactly the sockets of finished slots marked as files |
| Sockets.Backlog.Connect | httrack_x64/httrack/src/htsback.c:2661-2678 | the outcome of opening a connection is recorded in the slot, with a new socket or none |
| Sockets.Backlog.Add | httrack_x64/httrack/src/htsback.c:1414-2116 | a new transfer takes the connection of a slot with the same address, or opens a socket, and does open one when no slot has a socket to its address that has time left; no slot is found if and only if every one is in use or finished to stay; a test of an FTP link is refused, and a direct FTP transfer opens nothing here |
| Sockets.Backlog.Progress | httrack_x64/httrack/src/htsback.c:2315-3912 | whatever else the download loop does to a slot, ownership is kept as long as its socket stays |
| Sockets.Backlog.Fail | httrack_x64/httrack/src/htsback.c:2488-2514 | a failing transfer closes its socket |
| Sockets.Backlog.DeleteAll | httrack_x64/httrack/src/htsback.c:105-132 | in the end no socket is held and every one ever opened has been closed or is lost; the ones lost now are exactly those of slots marked as files |
| Sockets.Backlog.Perform | httrack_x64/httrack/src/htsback.c:1033-3912 | every event does to the slots and the sockets exactly what the step relation says, and keeps the ownership of sockets |
| Sockets.Backlog.Run | httrack_x64/httrack/src/htsback.c:2179-3912 | over any run: no socket in two slots, none in a free slot, idle slots hold valid keep-alive connections, every opened socket is held once, closed once or lost; lost are exactly the ones of slots given up while marked as files |
| Sockets.RunToTheEnd | httrack_x64/httrack/src/htsback.c:105-132 | from start to end every socket opened is closed exactly once, or lost under exactly that condition |
| Sockets.LosingRun | httrack_x64/httrack/src/htsback.c:3560-3629 | the condition is needed: in any run of these three events, an addition, an end as a file while connected, and a release, the only socket opened is lost |
| Sockets.LoseSocket | httrack_x64/httrack/src/htsback.c:3560-3629 | there is such a run, from an empty table of one slot |
| Idna.CharacterBytes | httrack_x64/httrack/src/htscharset.h:46-47 | a character is one ASCII byte, or bytes that are not ASCII and of which only the first is leading |
| Idna.LooksMeans | httrack_x64/httrack/src/htscharset.c:1068-1071 | a segment looks encoded if and only if it is `xn--`, in any case, with at least one character behind it |
| Idna.ShortestSegment | httrack_x64/httrack/src/htscharset.c:937-941 | splitting at a separator never cuts a character |
| Idna.ShortestCodes | httrack_x64/httrack/src/htscharset.c:966-1017 | the codes of a segment in shortest form, written again, are the segment |
| Idna.SegmentRoundTrip | httrack_x64/httrack/src/htscharset.c:940-1049 | a converted segment contains no separator, and converts back to the segment if it was not ASCII |
| Idna.DecodesElsewhere | httrack_x64/httrack/src/htscharset.c:1089-1151 | an ASCII segment taken for an encoded one never decodes to itself |
| Idna.RoundTrip | httrack_x64/httrack/src/htscharset.c:932-1168 | converting to IDNA and back gives the string, separators in place, if and only if no ASCII segment looks like an encoded one |
| Idna.AsciiUnchanged | httrack_x64/httrack/src/htscharset.c:932-1082 | an ASCII string is not changed, and it comes back if and only if `hts_isStringIDNA` says no |
| Idna.LabelByLabel | httrack_x64/httrack/src/htscharset.c:937-1060 | a name of labels with `.`, `/`, `:` or `?` in between is converted label by label, the separators in place |
| Idna.LabelEncoded | httrack_x64/httrack/src/htscharset.c:962-1040 | a readable label that is not ASCII becomes `xn--` and the Punycode of its codes |
| Idna.LabelDecoded | httrack_x64/httrack/src/htscharset.c:1089-1151 | a label that begins with `xn--`, in any case, and is longer, becomes what is behind that, decoded |
| Idna.SegmentCodes | httrack_x64/httrack/src/htscharset.c:962-1017 | the loop over a segment reads its codes, and its buffer of one code per byte is large enough, also for the final NUL |
| Idna.Utf8ToIdna | httrack_x64/httrack/src/htscharset.c:932-1060 | the loop over the segments computes the specification |
| Idna.IdnaToUtf8 | httrack_x64/httrack/src/htscharset.c:1080-1168 | so does the one back |
| Idna.IsStringIdna | httrack_x64/httrack/src/htscharset.c:1062-1078 | true if and only if some segment looks like an encoded one |
| Idna.ThereAndBack | httrack_x64/httrack/src/htscharset.c:932-1168 | the two converters one after the other give the string back under exactly that condition |

## Left out

Coucal:

- Murmur, MD5 and FNV hash bodies: the hash is any function from keys to two 32-bit numbers.
- Custom key handlers, print and assert handlers, statistics and logging.
- Failure of `malloc` and `realloc`, and `size_t` overflow: sizes are unbounded and addresses arbitrary.
- A key passed by the caller that points into the pool itself.
- `coucal_inc` and `coucal_dec`: thin wrappers around reading and writing.
- Completeness of an enumeration under removals for entries of the stash: they can move behind the cursor, and then are missed.
- CoucalHashtable.Coucal.Delete: says what is released, not that the memory is given back.

Encodings:

- UTF-8 validation in the strict sense: the reader accepts overlong forms and surrogates, as the code does, so reading and writing is the identity on shortest forms only.
- Growing buffers in `Utf8` and `Idna` are sequences: the doubling of their capacity is not modelled.
- Other charsets, code page tables and iconv; `hts_copyStringUTF8`; the charset search in HTML.
- The documentation of `nlz8` promises 0 to 8; the code gives 7 for zero, and the model follows the code.
- The generated entity table: `decode_entity` is any function that gives -1, or a code below 0x10000 for names of two characters or more.
- Signed overflow of the value of a numeric entity is modelled as 32-bit wrap-around.
- UrlDecode.UnescapeUrlSpecial: the runs that leave the destination, of which `UrlDecode.Within` says which they are, are not run on arrays: there the C code writes behind the end.
- UrlDecode.RunDecodes: says nothing about URLs whose bytes are not readable UTF-8, or with a `%` that starts no escape; for those the length and the place of the last write are bounded.
- Punycode itself: assumed to decode what it encodes, to emit only ASCII characters of the text, `-`, lowercase letters and digits, and to decode to no more codes than characters.

Filters:

- `size_flag`, which is set by every size test the matcher meets on its way, also in attempts that fail.
- The limit of a size test beyond the range of `int`, which is undefined in C, is cut off at 64 bits and reduced to 32.
- Patterns whose classes make the matcher read behind their NUL; and `*((..`, `*(file)` and the other `*(` forms of reserved names, on which the code steps one character past an empty text.

Downloads:

- Sockets, `select`, SSL, DNS, FTP, files, caches, header parsing and the updating of `htsback.c`: what they decide enters as parameters.
- Chunked bodies written to disk, trailers, transport errors other than a close, and the tolerant option, which accepts a wrong length.
- The number of a socket is never used again in the model; the operating system may reuse it after a close.
- One clock reading serves a whole cleaning; the code reads the clock for every slot.
- `ready_size_bytes`: what is added and what is subtracted are different sizes for files on disk, so there is no balance to prove.
- The threads of direct FTP transfers, which have sockets of their own and never store them in a slot.
- A chunk size of more than 64 bits is taken as `strtoul` does, with all bits set; `long` is 64 bits wide.
- Sockets.Backlog.StoreFinished: whether the storage has an entry and whether it can be written are parameters; the storage itself is a Coucal table.
