# FSFilterDriver: verified model

FSFilterDriver is a Windows file-system filter with a .NET client. This project models, in Dafny 4.11, the three
pieces of it whose correctness rests on heap shape, on bounds and on behaviour over whole runs, and proves what
they do.

1. **The chained hash table** (`FSFilterDriver/HashTable.c`), the driver's index of locked files and whitelisted
   processes. `Hash.dfy` has the 32-bit hash, `TableSpec.dfy` what each operation computes on lists of pairs,
   `TableRuns.dfy` whole runs against a map. `HashTableEntry.dfy` and `HashTable.dfy` have the classes: an array of
   chains whose nodes, keys and values are pool blocks. `Pool.dfy` fixes, for every request, whether it is granted; any
   pattern of refusals is possible, and each operation fails exactly when one of its own requests is refused.
   `TableSession.dfy` drives the table through whole runs.
2. **The report queue and its wire format** (`FSFilterDriver/Communication.c`, `FSFilterDriver/StringList.c`, the
   decoder in `FSFilterDriverAPI/FSFilterDriverAPI.cs`). `StringList.dfy` and `ReportQueue.dfy` are the linked lists and
   the drain into a byte buffer, `Wire.dfy` the format on values, `QueueRuns.dfy` any interleaving of reports and polls,
   `QueueSession.dfy` the heap driven through such a run.
3. **The whitelist and the registry list of locked files.** `PortMessage.dfy` has the command word and the branch it
   selects, `WhiteListLoop.dfy` has the driver's parsing loop over
   arbitrary memory, turn by turn and with its 16-bit counters, `WhiteListFields.dfy` the fields it reads,
   `WhiteListWrap.dfy` what it does once a counter has wrapped, `WhiteList.dfy` both ends on the heap,
   `WhiteListRoundTrip.dfy` what comes through, `WhiteListTable.dfy` the table the parsed names end up in and the
   lookup that decides which processes may pass. `Decimal.dfy`, `LockedFiles.dfy` and `LockedFilesRuns.dfy` have the
   zero-padded value names and `LockFiles`/`UnlockFiles`.

Every method is proved against a function or predicate on values; the lemmas then say what that function means.

## What the code does not do

Some of what the code is meant to do holds only under a condition. The model keeps the code as it is and proves the
condition exactly.

- `HashTableRemove` frees the match and everything behind it. It deletes one key if and only if the match is the last
  entry of its chain or there is none (`RemoveDeletesExactlyIff`); at the head it empties the bucket, elsewhere it
  leaves a pointer to a freed block (`HashTable.Remove`, `RemovalLosesOtherKeys`).
- Keys compare case-insensitively but hash on raw units, so another spelling of a key is found if and only if both fall
  into one bucket (`RespellingFoundIffSameBucket`, `RespellingLost`).
- The drain stays inside its buffer for every queue if and only if the size is even, at least 2 and at most 0xFFFF0002,
  or is 3 (`NeverOverrunsIff`). This is for the x64 build, where sizeof has 64 bits; the guard of the Win32 build
  decides the same way for buffers of at most 0xFFFF0000 (`SameGuardOnWin32Iff`). The client uses 32768.
- A poll gives the client exactly what it drained if and only if the first drained name is not empty and none contains a
  separator or a surrogate half (`ClientReadsBackIff`).
- The parser need not return. Its USHORT index wraps around at unit 65536, and its loop ends if and only if the parse
  ends in front of that unit, or a field that began behind unit 0 is open there and the first unit other than 0xFFFF is
  NUL; it then ends within 131071 turns (`EndsIff`), and `DeliversIff` says with which list. Three names of 65537 units
  in all keep it busy for ever (`LongListNeverEnds`).
- A whitelist comes through if and only if it is not empty, its names have 1 to 32767 units with no separator behind the
  first, and either all of it joined stays below 65536 units, or it wraps into place: 65536 + 2j units, of which j names
  0xFFFF are in front and j at the end, with a NUL behind the ones in front (`RoundTripIff`, `AtTheLimitIff`,
  `LongListComesThrough`, `LongerListComesThrough`). An empty message, which the console uses to deny a process, is
  never read as an empty list (`EntriesBounded`).
- The callback hashes the names as the client spelled them into as many buckets as there are names, and the driver looks
  up downcased process names: a listed process is recognised if and only if some listed spelling of it falls into its
  bucket (`ListedProcessRecognisedIff`). With 1, 2, 4, 8, 16 or 32 names any ASCII spelling is found
  (`SmallListRecognisesRespelling`); with three, "A" does not cover "a" (`ListedButNotRecognised`).
- When there is no memory to downcase a process name, the empty name is looked up, which is found only if the list holds
  an empty name (`EmptyNameRecognisedIff`).
- Neither the parser nor the callback frees the parsed list: each accepted message leaks two blocks for every name
  (`SetWhiteListAndTable`).
- `LockFiles` checks against a snapshot: a new file asked for twice is stored twice (`LockKeepsDistinctIff`), and
  unlocking then leaves one of the two (`UnlockUndoesLockIff`, `LockUnlockRestoresIff`).
- `LockFiles` overwrites no value if and only if no number that has wrapped around Int32 is the name of one
  (`LockPreservesIff`, `OldValueOverwritten`), and a file asked for may be missing afterwards because it was there
  before (`LockStoresIff`); while the numbers stay within Int32 it never does (`LockOnlyAdds`).

## Model

| member | source | states |
|---|---|---|
| Hashing.CalculateHash | FSFilterDriver/HashTable.c:203-215 | the shift-and-add loop with 32-bit wrap and USHORT counter computes (5381·33^n + Σ c_i·33^(n-1-i)) mod 2^32 mod size, a valid bucket index |
| Hashing.HashClosedForm | FSFilterDriver/HashTable.c:203-212 | the 32-bit hash is that polynomial with 5381 as first coefficient |
| Hashing.FoldClosedForm | FSFilterDriver/HashTable.c:208-210 | from any starting word the loop is the polynomial in 33 reduced once at the end |
| Hashing.StepHasInverse | FSFilterDriver/HashTable.c:209 | one turn of the loop is a bijection of 32-bit words, with the stated inverse |
| Hashing.SuffixCancels | FSFilterDriver/HashTable.c:203-212 | keys with a common suffix collide in 32 bits exactly when they collide without it |
| Hashing.OneUnitNeverCollides | FSFilterDriver/HashTable.c:203-212 | keys that differ in one code unit, such as the case of one letter, never share the 32-bit hash |
| Hashing.AdjacentPairCollision | FSFilterDriver/HashTable.c:203-212 | keys that differ inside two adjacent units collide exactly when 33a+b = 33c+d over the integers |
| Hashing.LowBitsDecideBucket | FSFilterDriver/HashTable.c:203-215 | with a number of buckets that divides 32, keys whose units agree in their five low bits, as respellings in ASCII do, share a bucket |
| TableSpec.PutKeepsWellFormed | FSFilterDriver/HashTable.c:119-149 | after Set, whatever allocations do, every entry is in the bucket of its own key and no chain has two equal keys |
| TableSpec.DropKeepsWellFormed | FSFilterDriver/HashTable.c:175-200 | so it is after every Remove that leaves no chain dangling |
| TableSpec.LookupAfterPut | FSFilterDriver/HashTable.c:119-164 | effect of Set on every later lookup: new value on success, NULL value if only the value copy failed, nothing if a new entry could not be made, all other keys untouched |
| TableSpec.LookupAfterDrop | FSFilterDriver/HashTable.c:54-63 | effect of Remove on every later lookup: all keys stored at or behind the match are gone, all others as before |
| TableSpec.HeadRemovalEmptiesBucket | FSFilterDriver/HashTable.c:180-184 | removing the head of a chain loses every key of that bucket and touches no other bucket |
| TableSpec.RemoveDeletesExactlyIff | FSFilterDriver/HashTable.c:175-200 | Remove deletes its key and nothing else if and only if the match is absent or last in its chain |
| TableSpec.RemovalLosesOtherKeys | FSFilterDriver/HashTable.c:175-200 | a three-entry chain where removing the head loses two other keys and removing the middle leaves a dangling pointer |
| TableSpec.RespellingFoundIffSameBucket | FSFilterDriver/HashTable.c:132-156 | a respelled key is found after Set if and only if both spellings hash to one bucket |
| TableSpec.RespellingLost | FSFilterDriver/HashTable.c:151-164 | with 1000 buckets "a" falls into bucket 670 and "A" into 638, and a value set under one is not found under the other |
| TableRuns.StepRefinesIff | FSFilterDriver/HashTable.c:119-200 | from agreeing states one call keeps the table and the map keyed on (upcased key, bucket) in agreement if and only if it is safe |
| TableRuns.RunRefinesMap | FSFilterDriver/HashTable.c:31-200 | after any run from creation with safe removals and arbitrary allocation failures, every lookup answers as that map |
| TableRuns.ReachableIsWellFormed | FSFilterDriver/HashTable.c:31-200 | every table reached without a dangling chain, unsafe head removals included, is well-formed |
| TableRuns.OneSpellingRunIsPlainMap | FSFilterDriver/HashTable.c:119-200 | over any set of keys that holds no two spellings of one key, the table is a map keyed on the key alone |
| TableRuns.FoldedIsOneSpelling | FSFilterDriver/HashTable.c:151-158 | for the keys downcased in FSFilterDriver.c, lines 385-386: downcased keys are such a set, unless upcasing identifies two units that downcase differently |
| PoolModel.Pool.TriesAfter | FSFilterDriver/HashTable.c:88-117 | a caller that stops at the first refusal makes a number of requests that depends on the pool alone |
| Chains.AllocateAndCopyUnicodeString | FSFilterDriver/HashTable.c:5-22 | NULL exactly when the one request is refused, else a block with the same text |
| Chains.CreateEntry | FSFilterDriver/HashTable.c:88-117 | a complete node with its own copies of key and value when its two or three requests are granted; otherwise NULL with every block given back, and nothing asked for after the refusal |
| Chains.FreeEntry | FSFilterDriver/HashTable.c:54-63 | frees exactly the blocks of this node and of those behind it, each once |
| Chains.ReplaceValue | FSFilterDriver/HashTable.c:133-135 | exchanges one value block, leaving NULL exactly when the copy is refused, and keeps the chain intact |
| ChainedTable.HashTable.Create | FSFilterDriver/HashTable.c:31-51 | an empty table owning two fresh blocks when both requests are granted, otherwise NULL with the pool unchanged |
| ChainedTable.HashTable.Set | FSFilterDriver/HashTable.c:119-149 | the heap table becomes TableSpec.Put of the old one, failing exactly when one of the requests for a new entry or a new value is refused; the returned node is the one holding the key, the pool changes by its own blocks only, and not at all when a new entry cannot be made; well-formedness is kept |
| ChainedTable.HashTable.GetEntryByKey | FSFilterDriver/HashTable.c:151-164 | the node of the first equal key in the bucket, or NULL |
| ChainedTable.HashTable.GetValueByKey | FSFilterDriver/HashTable.c:166-169 | the stored value; a missing key and a NULL value are not told apart |
| ChainedTable.HashTable.IsKeyExists | FSFilterDriver/HashTable.c:171-173 | whether a lookup finds an entry |
| ChainedTable.HashTable.Remove | FSFilterDriver/HashTable.c:175-200 | frees exactly the match and what follows; the table becomes TableSpec.Drop of the old one, or the predecessor is left pointing at a freed node while everything in front of it and every other chain stay in order |
| ChainedTable.HashTable.FreeEntryAtIndex | FSFilterDriver/HashTable.c:66-73 | frees all blocks of one chain and empties its slot |
| ChainedTable.HashTable.Free | FSFilterDriver/HashTable.c:75-86 | afterwards the pool is what it was without any of the table's blocks |
| ChainedTable.HashTable.BlockCount | FSFilterDriver/HashTable.c:31-117 | a reachable table owns exactly two blocks plus node, key and optional value per pair, none shared |
| TableSession.Session | FSFilterDriver/HashTable.c:31-200 | create, requests until the first that would leave a chain dangling, a lookup and free: the pool ends as it began, the answer is that of the run, and that of the map if every removal was safe; no call fails exactly when every request to the pool is granted |
| Wire.BytesAt | FSFilterDriver/Communication.c:196-229 | of each unit the remainder modulo 256 is stored first, then the quotient |
| Wire.BytesRoundTrip | FSFilterDriver/Communication.c:196-229 | little-endian units survive the byte level |
| Wire.CutJoin | FSFilterDriverAPI/FSFilterDriverAPI.cs:166-183 | cutting at separators undoes joining with 0xFFFF and a final 0x0000 |
| Wire.EmittedIsJoin | FSFilterDriver/Communication.c:203-229 | the drained items are stored joined by 0xFFFF, leading empty ones leaving no trace |
| Wire.PayloadFits | FSFilterDriver/Communication.c:204-229 | for the sizes named next, every drain and its terminator stay inside the buffer |
| Wire.NeverOverrunsIff | FSFilterDriver/Communication.c:204-229 | on x64, for every ULONG size: the drain fits its buffer for every queue if and only if the size is even, at least 2 and at most 0xFFFF0002, or is 3; beyond, the wrapped sum in the guard lets an item through that does not fit |
| Wire.SameGuardOnWin32Iff | FSFilterDriver/Communication.c:204 | for even sizes, the guard with a 32-bit sizeof admits the same items for all a drain can have written if and only if the size is at most 0xFFFF0000 |
| Wire.GuardIsExact | FSFilterDriver/Communication.c:204-208 | with an even size the guard admits an item exactly when delimiter, item and terminator fit, one unit stricter while nothing is stored |
| Wire.GreedyMaximality | FSFilterDriver/Communication.c:204-226 | an item left behind could not have been stored |
| Wire.GetReportedItems | FSFilterDriverAPI/FSFilterDriverAPI.cs:160-185 | the client's loop yields the pieces that end in a separator, nothing for two bytes or fewer, and throws on half a unit |
| Wire.ClientOutcome | FSFilterDriverAPI/FSFilterDriverAPI.cs:160-185 | it throws exactly on an odd number of more than two bytes; otherwise it yields one name for each 0xFFFF or 0x0000, and none for two bytes or fewer |
| Wire.SurrogatesByBits | FSFilterDriverAPI/FSFilterDriverAPI.cs:172 | the units that a decoder fed with one unit at a time need not keep are those whose upper six bits are 110110 or 110111 |
| Wire.ClientReadsClean | FSFilterDriver/Communication.c:203-232 | from clean items the client reads all but the empty ones in front, in order |
| Wire.ClientReadsBackIff | FSFilterDriverAPI/FSFilterDriverAPI.cs:160-185 | the client reads exactly the drained items if and only if the first is not empty and all are clean |
| StringLists.Create | FSFilterDriver/StringList.c:3-21 | a detached entry with its own copy of the string when both requests are granted, otherwise NULL with the pool unchanged |
| StringLists.FreeAll | FSFilterDriver/StringList.c:28-35 | frees every block of the list once and no other |
| StringLists.BlockCount | FSFilterDriver/StringList.c:3-21 | a list owns two blocks per entry, none shared |
| ReportQueue.CommunicationState.ReportItem | FSFilterDriver/Communication.c:162-180 | with memory the report becomes the head and the pool grows by its two blocks; without, an empty queue stays empty |
| ReportQueue.CommunicationState.ClearOutputBuffer | FSFilterDriver/Communication.c:182-190 | the queue is empty and all its blocks are freed |
| ReportQueue.CommunicationState.BuildOutputStreamBuffer | FSFilterDriver/Communication.c:192-236 | the buffer holds the greedy prefix in wire format and is untouched behind it, the result is the byte count, the head is the first undrained node, only drained nodes are freed |
| QueueRuns.NothingLostOrInvented | FSFilterDriverAPI/FSFilterDriverAPI.cs:127-186 | conservation through the client: for clean names, after any interleaving of reports and polls, each non-empty name was reported as often as it was decoded plus as often as it is queued |
| QueueRuns.ExactlyOnce | FSFilterDriver/Communication.c:162-236 | a poll splits the queue, wherever it stops, and a report extends it: each report is once in one poll or in the queue |
| QueueRuns.NewestFirst | FSFilterDriver/Communication.c:170-173 | a poll delivers newest first, everything in it newer than what stays queued |
| QueueRuns.ClientSeesEachPoll | FSFilterDriverAPI/FSFilterDriverAPI.cs:127-186 | what the client decodes from each poll is what that poll drained, leading empty names dropped |
| QueueRuns.BlockedForever | FSFilterDriver/Communication.c:204 | a name with Length + 2 >= every poll size stays queued through any later run, with all reported before it |
| QueueRuns.PollsDrainIff | FSFilterDriver/Communication.c:203-232 | n polls empty a queue of at most n items if and only if none is that long |
| QueueRuns.WholeQueueDelivered | FSFilterDriver/Communication.c:203-232 | then the concatenated decodes are the queue, in order |
| QueueSession.Session | FSFilterDriver/Communication.c:162-236 | the heap queue, its buffers and the client, run through any events for whose reports there is memory, give the decodes of QueueRuns and return the pool to its first state |
| PortMessages.BranchOfBytes | FSFilterDriver/Communication.c:83-119 | which four bytes select which branch; anything else, and anything shorter, is refused; the parser gets the memory behind them and the size less four |
| PortMessages.CommandSelectsBranch | FSFilterDriverAPI/FSFilterDriverAPI.cs:19-24 | each of the client's three codes, written as it writes them, selects its own branch and no other |
| WhiteListWrap.EndsIff | FSFilterDriver/Communication.c:241-294 | the loop ends, and within 131071 turns, if and only if the parse ends in front of unit 65536, or a field begun behind unit 0 is open there and the first unit other than 0xFFFF is NUL |
| WhiteListWrap.DeliversIff | FSFilterDriver/Communication.c:241-294 | the list it hands over is a function of memory: the fields of the message, or behind the wrap those of the first 65536 units and one 0xFFFF for every second leading 0xFFFF |
| WhiteListLoop.CycleNeverEnds | FSFilterDriver/Communication.c:248-294 | a loop that comes back to a pair of counters never ends |
| WhiteListLoop.EntriesBounded | FSFilterDriver/Communication.c:253-294 | a list handed over has at least one entry and at most 65537 |
| WhiteListFields.LoopReadsFields | FSFilterDriver/Communication.c:248-294 | when the parse ends in front of unit 65536, the loop with its USHORT counters delivers the fields of the message, last one first |
| WhiteListFields.LaidOutIff | FSFilterDriver/Communication.c:248-294 | the fields, which the loop reads while no counter wraps, are the only sequence laid out in memory in the stated way |
| WhiteListFields.ParserOnAnyMemory | FSFilterDriver/Communication.c:248-294 | when the parse ends in front of unit 65536, what is delivered are fields, at least one, none empty, which joined are the units consumed, with separators only as first units; at most one unit past the count is read |
| WhiteListFields.TouchedWithinReach | FSFilterDriver/Communication.c:249-263 | no turn of such a parse looks at or copies a unit behind its end |
| WhiteLists.SetWhiteList | FSFilterDriver/Communication.c:238-304 | on all memory on which the loop ends: it fails exactly when one of three requests for each entry is refused, and then no block stays; otherwise the list handed over is the delivered one and the pool grows by its blocks only |
| WhiteLists.SendProcessesWhiteList | FSFilterDriverAPI/FSFilterDriverAPI.cs:79-104 | byte by byte: 00 10 00 00, each unit of the names joined by 0xFFFF with its lower byte first, and 00 00 |
| WhiteListRoundTrip.RoundTrip | FSFilterDriver/Communication.c:90-98 | the bytes the client sends select the parser, which delivers the reversed list and reads only inside the message |
| WhiteListRoundTrip.RoundTripIff | FSFilterDriver/Communication.c:238-304 | for every list: it comes through, whatever follows it in memory, if and only if it is not empty, each name has 1 to 32767 units without inner separators, and the joined names have fewer than 65536 units or wrap into place |
| WhiteListRoundTrip.TooLongNeverEnds | FSFilterDriver/Communication.c:241-294 | on names without NUL that join to 65536 units or more the loop never ends, whatever follows them |
| WhiteListRoundTrip.AtTheLimitIff | FSFilterDriver/Communication.c:249-251 | well-spelled names that join to exactly 65536 units come through if and only if the first unit is NUL |
| WhiteListRoundTrip.LongListComesThrough | FSFilterDriver/Communication.c:249-251 | three names of 65536 units in all that come through |
| WhiteListRoundTrip.LongerListComesThrough | FSFilterDriver/Communication.c:249-251 | four names of 65538 units in all, with 0xFFFF in front and at the end, that come through |
| WhiteListRoundTrip.LongListNeverEnds | FSFilterDriver/Communication.c:249-251 | three names of 65537 units on which the loop never ends |
| WhiteListRoundTrip.EncodersAgreeIff | FSFilterDriverAPI/FSFilterDriverAPI.cs:86-98 | driver and client write the same payload if and only if the list has at most one item or a non-empty first one |
| WhiteListTable.RecognisedIff | FSFilterDriver/HashTable.c:119-173 | in the table filled from a list a key is found if and only if some name that could be stored equals it up to case and falls into the same of as many buckets as there are names |
| WhiteListTable.ListedProcessRecognisedIff | FSFilterDriver/Communication.c:238-304 | so, for every list that comes through, from the names the client sent to the driver's lookup, whatever follows the message in memory |
| WhiteListTable.SingleNameRecognisedIff | FSFilterDriver/HashTable.c:151-173 | a single name is recognised in every spelling and no other process is |
| WhiteListTable.SmallListRecognisesRespelling | FSFilterDriver/HashTable.c:119-173 | lists of 1, 2, 4, 8, 16 or 32 names recognise every ASCII spelling of each |
| WhiteListTable.ListedButNotRecognised | FSFilterDriver/HashTable.c:151-173 | of three names "A", "B", "C" the first is not found in lower case |
| WhiteListTable.SetWhiteListCallback | FSFilterDriver/FSFilterDriver.h:105 | the old table's blocks are freed, the new table holds the list's names, and all of them exactly when every request is granted; the list's blocks stay allocated (SetWhiteListCallback, FSFilterDriver.c, lines 1019-1045) |
| WhiteListTable.EmptyNameRecognisedIff | FSFilterDriver/HashTable.c:151-173 | the empty name, looked up when downcasing fails, is found only if it is in the list |
| WhiteListTable.IsProcessInWhiteList | FSFilterDriver/HashTable.c:171-173 | true exactly when a table exists and holds the downcased process name, or the empty name if the request for that was refused (IsLocked, FSFilterDriver.c, lines 792-807) |
| WhiteListTable.SetWhiteListAndTable | FSFilterDriver/Communication.c:238-304 | parser and callback together: the pool exchanges the old table for the new one and loses two blocks for every name for good; every name is stored exactly when every request is granted |
| Decimal.ParseIntIff | FSFilterDriverAPI/FSFilterDriverAPI.cs:227 | int.Parse gives v exactly for white space, at most one sign, one or more digits standing for v within Int32, and white space; it throws for every other string |
| Decimal.PrintD5Iff | FSFilterDriverAPI/FSFilterDriverAPI.cs:232 | the D5 numeral is the one string with a sign if need be and at least five digits, led by a zero only if there are exactly five |
| Decimal.ParsePrintD5 | FSFilterDriverAPI/FSFilterDriverAPI.cs:227-232 | int.Parse reads every 32-bit integer back from its D5 numeral |
| LockedFiles.RegistryKey.LockFiles | FSFilterDriverAPI/FSFilterDriverAPI.cs:225-234 | it throws, with the key unchanged, exactly when some value name is no numeral of an Int32; otherwise the key becomes Lock of the old one |
| LockedFiles.LockOnlyAdds | FSFilterDriverAPI/FSFilterDriverAPI.cs:227-234 | no value is overwritten; each file not in the snapshot is added under its own new numeral |
| LockedFiles.LockNumbers | FSFilterDriverAPI/FSFilterDriverAPI.cs:227-232 | the new numerals are those from 1 on for an empty key, else those that follow the largest |
| LockedFiles.EmptyKeyLocked | FSFilterDriverAPI/FSFilterDriverAPI.cs:227-232 | files locked into an empty key are, in order, under the numerals of 1, 2 and so on, and nothing else is |
| LockedFiles.FirstFileLocked | FSFilterDriverAPI/FSFilterDriverAPI.cs:227-232 | the first file of an empty key is the value 00001 |
| LockedFiles.LockPreservesIff | FSFilterDriverAPI/FSFilterDriverAPI.cs:227-232 | no old value is overwritten if and only if no number counted past Int32 is the name of one |
| LockedFiles.OldValueOverwritten | FSFilterDriverAPI/FSFilterDriverAPI.cs:227-232 | with values named by the largest and the smallest Int32, locking a new file replaces the second |
| LockedFiles.LockStoresIff | FSFilterDriverAPI/FSFilterDriverAPI.cs:227-234 | with numbers that may wrap: a file asked for is stored afterwards if and only if the key did not have it, or has it under a name that is not used again |
| LockedFiles.LockStoresAll | FSFilterDriverAPI/FSFilterDriverAPI.cs:228-234 | while the numbers stay within Int32 every file asked for is stored afterwards |
| LockedFiles.LockKeepsDistinctIff | FSFilterDriverAPI/FSFilterDriverAPI.cs:228-234 | numbers wrapped or not, paths stay distinct up to case if and only if the added files are |
| LockedFiles.RegistryKey.UnlockFiles | FSFilterDriverAPI/FSFilterDriverAPI.cs:277-296 | it throws, with the key unchanged, exactly when some value name is no numeral of an Int32; otherwise the key becomes Unlock of the old one |
| LockedFiles.UnlockDeletesFirstIff | FSFilterDriverAPI/FSFilterDriverAPI.cs:283-295 | a name is deleted exactly when it is the first, in enumeration order, of one of the files |
| LockedFiles.UnlockRemovesAllIff | FSFilterDriverAPI/FSFilterDriverAPI.cs:283-295 | exactly the matching values are removed if and only if no file is stored twice |
| LockedFiles.UnlockOnlyDeletes | FSFilterDriverAPI/FSFilterDriverAPI.cs:283-295 | in any case only matching values are removed and distinctness is kept |
| LockedFiles.UnlockUndoesLockIff | FSFilterDriverAPI/FSFilterDriverAPI.cs:213-307 | unlocking files just locked leaves the old key without any of them if and only if none was stored twice and the added ones are distinct up to case |
| LockedFiles.LockUnlockRestoresIff | FSFilterDriverAPI/FSFilterDriverAPI.cs:213-307 | for files not yet stored, lock then unlock restores the key if and only if they are pairwise distinct up to case |
| LockedFilesRuns.RunKeepsSet | FSFilterDriverAPI/FSFilterDriverAPI.cs:213-307 | over any run of calls without repetitions the key is a case-insensitive set to which LockFiles adds and from which UnlockFiles removes |

## Left out

- Of FSFilterDriver.c only SetWhiteListCallback and the whitelist question of IsLocked are modelled; the rest of the
  filtering decision, reading locked files from the registry and the other callbacks are not.
- Port creation, connecting, security descriptors, the exception filter, tracing, `HashTableTest`, the console program.
- Of `CommunicationPortMessage` the switch is modelled, not the status it discards.
- Interleavings inside one operation: the spin-lock calls are commented out in the source, and each report or poll is
  one atomic step here.
- ReportQueue.CommunicationState.ReportItem: asks for memory unless the queue is empty, because the source writes
  through the NULL it gets otherwise. QueueSession.Session asks for memory for every report.
- ReportQueue.CommunicationState.BuildOutputStreamBuffer: asks that this drain fit its buffer, since the source writes
  behind the buffer otherwise. NeverOverrunsIff says for which sizes it always does.
- QueueRuns.NothingLostOrInvented: covers empty names only when no reported name is empty, because a poll that begins
  with empty names drops them.
- QueueRuns.ExactlyOnce: polls of any size are run, also those whose drain writes behind its buffer, as if that did no
  harm; QueueSession.Session makes only polls that fit.
- WhiteLists.SetWhiteList: asks for memory on which the loop ends, as the source does not return otherwise. EndsIff says
  which memory that is; every message of at most 65534 bytes is.
- WhiteListTable.SetWhiteListAndTable: asks for the same memory.
- LockedFiles.LockStoresIff: like LockKeepsDistinctIff, for at most 2^32 added files; a .NET array cannot hold more.
- WhiteListTable.SetWhiteListCallback: stops when the new table cannot be created, where the source goes on to use NULL.
- UNICODE_STRING is a sequence of at most 32767 units: an odd Length, and a MaximumLength larger than Length, are not
  represented. Strings passed in are values, so the caller's own buffer cannot alias a stored copy.
- The upcase table, the .NET decoder and the culture-aware comparison are parameters: any function on units, any decoder
  that keeps single units except surrogate halves, any comparison by a fold of the string.
- Names handed to the whitelist encoder are the units `Encoding.Unicode.GetBytes` produces; its replacement of malformed
  surrogates happens before.
- `int.Parse` is modelled with white space, sign and range check; trailing NUL characters and culture-specific signs are
  not. Registry errors, missing keys and null file names are not modelled.
- ChainedTable.HashTable.RemovalIsIntact, TableSession and QueueSession drive the modelled operations through runs; the
  driver has no such code.
