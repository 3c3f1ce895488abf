# A verified model of tiny-redis-server

The server keeps sixteen tables of keys with deadlines, five value types, a sorted set built from a hash map and a
span-carrying skip list, a RESP2 request parser, a snapshot file with a CRC-32 trailer, and MULTI/EXEC transactions.
This project models those parts in Dafny, in the form the C++ has (classes whose methods update fields, loops with
invariants), and proves what they promise for every input, every run and every reachable state.

| files | part of the server |
|---|---|
| `Common.dfy` | bytes, 64-bit words, doubles as bit patterns with their numeric order |
| `SkipLinks.dfy`, `SortedKeys.dfy`, `SortedRanges.dfy`, `Windows.dfy` | links and spans of the skip list on values; sorted sequences; range queries on them; index windows with signed ends |
| `SkipList.dfy`, `SkipListRuns.dfy` | the skip list as a class over node objects, and whole runs of it |
| `ZSetSpec.dfy`, `ZSet.dfy`, `ZSetRuns.dfy` | the sorted set with its two indexes, and whole runs of sorted-set commands |
| `RespSpec.dfy`, `RespChunks.dfy`, `RespLines.dfy`, `RespCodec.dfy`, `RespStreams.dfy`, `RespInline.dfy`, `RespParser.dfy` | the request parser: meaning, chunking, its length guards, encoding, streams, the parser class |
| `Crc32.dfy` | table-driven CRC-32 and the errors it detects |
| `Values.dfy`, `Database.dfy`, `DatabaseRuns.dfy` | values and sizes, the database class, expiry over whole runs |
| `RdbFormat.dfy`, `RdbCodec.dfy`, `Snapshots.dfy`, `Rdb.dfy`, `RdbLoad.dfy`, `RdbZSets.dfy`, `RdbSound.dfy` | the snapshot format, its round trip, writer, reader and loader, and when a loaded database is sound |
| `TxSpec.dfy`, `Transactions.dfy` | MULTI, EXEC and DISCARD for many clients |
| `Glob.dfy`, `Lists.dfy` | the glob matcher; list windows and removals |

## Main results

- **Skip list.** After any run of insertions, erasures and pops, for every sequence of level draws, each level links
  exactly the nodes tall enough for it, every non-null link carries the distance it jumps, and the content is that of
  the same run on a strictly sorted sequence. Links and spans stay right for NaN scores too, which have no place in the
  order. Spans of null links are unconstrained, as in the code, where they may wrap modulo 2^64; they never reach a
  non-null link. Ranks summed from spans are indices, the range at the rank of a key is that key, and the two range
  queries equal their definitions on the sorted sequence.
- **Sorted set.** The map and the list hold the same pairs after every command of every run, including a ZADD that stops
  at a bad float; each step of a run has its exact effect on members and scores, and exactly its reply.
- **Parser.** Any chunking that raises no error gives what parsing at once gives. A stream is free of errors under every
  chunking exactly when it fits the buffer, parses at once and has no line longer than the two length guards allow.
  A pipelined stream of encoded requests, of any length, is decoded exactly under every chunking in which no call
  overfills the buffer, and only such a call can raise an error. Encoding and parsing are inverse for all payloads,
  with any bytes following.
- **Snapshots.** Loading what was saved restores all tables, for all five types and every order of walking the hash tables.
  The table-driven checksum is the bit-serial one, and any change confined to four consecutive bytes of a loadable file,
  wherever they lie, makes the load fail. On arbitrary bytes the loader stays inside the buffer, does at most one
  round of work for every four bytes and one more, and replaces the database whole or leaves it alone. What it leaves is
  sound exactly when the last record under each key has no NaN score and no member with two scores.
- **Database.** The accounted memory is exactly the sum of entry sizes after every method, so the saturating subtraction never
  saturates. Under a clock that does not go back, with deadlines set and cleared on the way, two databases that start equal answer all lookups alike when one
  runs expire cycles and the other does not.
- **Transactions.** Every interleaving of many clients equals a serial run in which each EXEC is one block of exactly what its
  client queued, and a discarded or rejected transaction has no effect.
- **Glob.** The matcher never accepts wrongly. It decides every pattern correctly for exactly the strings that hold no `*`
  byte, and every string correctly for exactly the patterns that hold none.

## Where the code and its comments differ

- `include/commands.h:47` announces `[..]` classes and `\` escapes; `GlobMatch` has neither. The model follows the code.
- `GlobMatch` tests for a literal before it tests for a star (`src/commands.cpp:787`), so a `*` in the string can use up a
  `*` of the pattern. `Glob.MissedMatches` and `Glob.MissedRefused` give, for every string with a `*`, a pattern that should
  match and is refused, and `Glob.AgainMatches` and `Glob.LiteralShort`, for every pattern with a `*`, a string; `Glob.ExactIff`
  and `Glob.ExactPatternIff` give the exact conditions.
- Length lines are refused once more than 32 bytes are buffered without a line end (`src/resp.cpp:99`, `src/resp.cpp:155`), and
  inline commands once more than 64 KiB are (`src/resp.cpp:75`), so chunking can matter outside encoded streams;
  `RespStreams.CutsCanMatter` is an instance and `RespLines.ErrorFreeIff` the exact condition.
- The loader checks neither that a sorted set names each member once nor that its scores are numbers (`src/rdb.cpp:333-338`).
  `RdbSound.TwoScoresAccepted` and `RdbSound.NaNAccepted` are files it accepts that leave the two indexes different;
  `RdbSound.LoadedSoundIff` gives the exact condition for every file.
- LREM with the least 64-bit count overflows twice: when the count is negated and in the bound of the erasing loop
  (`src/commands.cpp:1647-1649`). Even with wrap-around the loop then reads before the first match, whatever the list. The
  model gives that call no answer, and `Lists.ListValue.Rem` says that it is the only such count.
- A reverse score range with a negative offset takes an iterator before the beginning (`src/zskiplist.cpp:278-285`). The model gives
  that query no answer, and `ZSkipList.SkipList.RangeByScore` says that it is the only such case.
- `Erase` of a sole tall node leaves stale spans at null links (`src/zskiplist.cpp:145-149`); the invariant speaks of non-null
  links only.
- The "truncated header" answer (`src/rdb.cpp:272-275`) cannot be reached after the length check at line 255; the model has no
  such outcome.

## Model

| member | source | states |
|---|---|---|
| SortedKeys.BytesLessTotal | src/zskiplist.cpp:51-55 | byte-string order is total, irreflexive and asymmetric |
| SortedKeys.KeyLessTransitive | src/zskiplist.cpp:51-55 | the order by score and then member is transitive on scores that are not NaN |
| SortedKeys.KeyTrichotomy | src/zskiplist.cpp:51-59 | two keys are less, equal or greater, and exactly one of these, with the two zeros equal |
| SortedKeys.InsertedSorted | src/zskiplist.cpp:87-137 | the abstract insertion keeps strict order |
| SortedKeys.InsertedElements | src/zskiplist.cpp:101-108 | after an insertion exactly the new pair and the old pairs with another key are held |
| SortedKeys.ErasedElements | src/zskiplist.cpp:157-163 | after an erasure exactly the pairs with another key are held |
| SortedKeys.SortedUnique | src/zskiplist.cpp:50-59 | a strictly sorted sequence is determined by the set of its pairs |
| SkipLinks.InsertionLinks | src/zskiplist.cpp:109-134 | splicing the touched levels and bumping the untouched ones leaves every level linked with exact spans |
| SkipLinks.InsertKeepsLinked | src/zskiplist.cpp:123-134 | the links of all old nodes stay right after a node is spliced in between |
| SkipLinks.OpenKeepsLinked | src/zskiplist.cpp:110-117 | opening new levels writes only spans of null links and so breaks nothing |
| SkipLinks.RemoveKeepsLinked | src/zskiplist.cpp:139-151 | taking a node out redirects or shortens every link over it, and all links stay right |
| ZSkipList.SkipList.constructor | src/zskiplist.cpp:8-12 | a new list is valid, empty and one level high |
| SortedKeys.PlacedIsInserted | src/zskiplist.cpp:87-137 | in a strictly sorted list, for a score that is a number, the place where a search stops is the place in the order |
| ZSkipList.SkipList.FindPredecessors | src/zskiplist.cpp:61-76 | whatever the scores, at each level the walk stops at the last tall enough node before one common place, its summed spans are that node's position, and in a sorted list the place is the key's |
| ZSkipList.SkipList.FindNode | src/zskiplist.cpp:61-81 | finds the node exactly when the place where the search stops holds the key, which in a sorted list is when the key is present |
| ZSkipList.SkipList.RandomLevel | src/zskiplist.cpp:41-48 | any height from 1 to 32 |
| ZSkipList.SkipList.OpenLevels | src/zskiplist.cpp:110-117 | only the header's spans at the new levels change |
| ZSkipList.SkipList.LinkTouched | src/zskiplist.cpp:123-130 | after the loop the node is spliced in at each of its levels, with the jump split at it |
| ZSkipList.SkipList.BumpUntouched | src/zskiplist.cpp:131-134 | exactly the predecessors' spans above the node grow by one |
| ZSkipList.SkipList.InsertNode | src/zskiplist.cpp:118-136 | the structure is well built again with the key at its place |
| ZSkipList.SkipList.Insert | src/zskiplist.cpp:87-137 | for every level draw and every score, NaN included, all links and spans stay right and the pair is put where the search stops or overwrites the equal key there; in a sorted list a number goes to its place in the order, and the answer tells whether a node was added |
| ZSkipList.SkipList.UnlinkAll | src/zskiplist.cpp:140-151 | after the loop the victim is out of every level and spans over it are one shorter |
| ZSkipList.SkipList.Settle | src/zskiplist.cpp:152-153 | the level drops to the greatest height left and the length by one |
| ZSkipList.SkipList.DeleteNode | src/zskiplist.cpp:139-155 | the structure is well built again without exactly that position |
| ZSkipList.SkipList.Erase | src/zskiplist.cpp:157-163 | removes exactly the pair with that key, and answers whether there was one |
| ZSkipList.SkipList.PopMin | src/zskiplist.cpp:309-317 | returns and removes the least pair, or answers none and changes nothing when empty |
| ZSkipList.SkipList.PopMax | src/zskiplist.cpp:319-331 | the greedy descent reaches the greatest pair, which is returned and removed |
| ZSkipList.SkipList.Contains | src/zskiplist.cpp:83-85 | true exactly when the key is present |
| ZSkipList.SkipList.Rank | src/zskiplist.cpp:165-183 | the sum of spans less one is the key's index when present, the greatest size_t otherwise |
| ZSkipList.SkipList.RevRank | src/zskiplist.cpp:185-190 | the index counted from the other end, the greatest size_t when absent |
| ZSkipList.SkipList.RangeByRank | src/zskiplist.cpp:192-238 | the window of the sorted sequence, or of its reverse, between two signed ranks |
| ZSkipList.SkipList.CountInRange | src/zskiplist.cpp:290-299 | the number of all pairs within the bounds, despite the early break |
| ZSkipList.SkipList.RangeAscending | src/zskiplist.cpp:245-268 | offset and count applied to the pairs within the bounds, despite the multi-level seek, the tie skipping and the early breaks |
| ZSkipList.SkipList.RangeDescending | src/zskiplist.cpp:269-286 | offset and count applied to the reversed pairs within the bounds; for a negative offset, and only then, the query has no defined answer |
| ZSkipList.SkipList.RangeByScore | src/zskiplist.cpp:240-288 | both directions, with a negative count for all and a zero count for none; undefined exactly for a reverse query with a negative offset and a count other than zero |
| ZSkipList.SkipList.WalkVisitsTall | src/zskiplist.cpp:61-76 | following forward links at level i from any node visits the later nodes taller than i |
| ZSkipList.SkipList.LevelHoldsTall | src/zskiplist.cpp:61-76 | the nodes reached from the header at level i are exactly those taller than i, in order |
| ZSkipList.SkipList.LevelIsGreatestHeight | src/zskiplist.cpp:110-117 | the level field is the greatest node height, and 1 for an empty list |
| SkipListRuns.FindByRank | src/zskiplist.cpp:165-238 | the rank of a key, counted from either end, leads the range query back to exactly that key; an absent key leads nowhere |
| SortedRanges.ScanIsLimit | src/zskiplist.cpp:258-268 | the scanning loop from a safe starting point computes drop and take of the filtered sequence |
| SortedRanges.WithinElements | src/zskiplist.cpp:290-299 | the pairs within the bounds are exactly the pairs whose score passes both bound tests |
| SortedRanges.DescendingWindow | src/zskiplist.cpp:278-285 | the index arithmetic of the reverse window is drop and take on the reversed sequence, and its iterators leave the matches exactly for negative offsets |
| SkipListRuns.Run | src/zskiplist.cpp:87-163 | after any run from empty the list is valid and holds what the same run leaves of a sorted sequence |
| SkipListRuns.RunSorted | src/zskiplist.cpp:87-163 | a run without NaN scores leaves a strictly sorted sequence |
| SkipListRuns.RunElements | src/zskiplist.cpp:309-331 | membership after one more operation in terms of membership before: a pop drops exactly the pair with none below (above) it |
| ZSetSpec.AgreeOnce | src/commands.cpp:1941-1994 | agreeing indexes hold each member once and have the same size |
| ZSetSpec.AgreeUnique | src/commands.cpp:1941-1994 | the sorted index is determined by the map |
| ZSetSpec.InsertAgrees | src/commands.cpp:1980-1985 | adding a new member to both indexes keeps agreement |
| ZSetSpec.RescoreAgrees | src/commands.cpp:1973-1979 | erasing at the recorded score and inserting at the new one keeps agreement |
| ZSetSpec.AddPairsStops | src/commands.cpp:1943-1946 | a bad score stops the loop with the pairs before it applied |
| ZSetSpec.AddPairsCounts | src/commands.cpp:1941-1994 | the added count is the growth in cardinality, the changed count bounds it, and success means every score was good |
| ZSetSpec.AddPairsFlags | src/commands.cpp:1971-1972 | no member is lost; NX changes no old score and XX adds no member |
| ZSetSpec.AddPairsFrame | src/commands.cpp:1941-1986 | members not named keep their scores |
| ZSetSpec.LastPairWins | src/commands.cpp:1973-1985 | without NX and XX a member named several times ends at its last score |
| ZSets.ZSet.Rescore | src/commands.cpp:1974-1978 | both indexes move the member to its new score |
| ZSets.ZSet.AddAll | src/commands.cpp:1941-1986 | the loop leaves both indexes agreeing, on a full pass and on an early stop, with the counts of the value-level fold |
| ZSets.ZSet.ZAdd | src/commands.cpp:1925-1994 | the map and the reply for all flag combinations, both indexes agreeing after |
| ZSets.ZSet.ZIncrBy | src/commands.cpp:2148-2173 | an overflowing or bad increment changes nothing; otherwise the member moves in both indexes |
| ZSets.ZSet.ZRem | src/commands.cpp:2138-2147 | exactly the named members leave both indexes, and the reply is the drop in cardinality |
| ZSets.ZSet.ZPop | src/commands.cpp:2192-2205 | the least or greatest pairs in order, at most count, leave both indexes |
| ZSets.ZSet.ZRemRangeByRank | src/commands.cpp:2222-2227 | exactly the pairs of the rank window leave, and the reply is the drop |
| ZSets.ZSet.ZRemRangeByScore | src/commands.cpp:2245-2250 | exactly the pairs within the bounds leave, and the reply is the drop |
| ZSetRuns.Run | src/commands.cpp:1941-2250 | after every command of every run the two indexes agree; pops and removals by rank or score take exactly the pairs of the sorted order they name and leave all else alone, and every reply is the drop in cardinality or the pairs taken |
| RespChunks.ParseStable | src/resp.cpp:64-193 | a command once complete is parsed the same way whatever bytes follow |
| RespChunks.RestIsSuffix | src/resp.cpp:52-62 | the input is the consumed bytes followed by what is left |
| RespChunks.ParseAllAppend | src/resp.cpp:41-62 | when the first part raises no error, parsing it and then the residue with the second part equals parsing both at once: commands, residue and error |
| RespChunks.ChunkingIrrelevant | src/resp.cpp:41-62 | every chunking that ends without error equals parsing all bytes at once, and one call with them when they fit the buffer |
| RespChunks.ErrorFreeChunkings | src/resp.cpp:41-193 | all chunkings of a stream within the buffer limit are free of errors if and only if no prefix of it raises one |
| RespLines.ParseExact | src/resp.cpp:64-193 | a command needs none of the bytes after it |
| RespLines.PrefixesOkIff | src/resp.cpp:64-193 | no prefix of a stream raises an error if and only if the whole raises none and no line is longer than the length guards allow |
| RespLines.ErrorFreeIff | src/resp.cpp:41-193 | all chunkings of a stream are free of errors if and only if it fits the buffer, parses at once and has no such line |
| RespSpec.Parse | src/resp.cpp:64-193 | a successful step consumes at least one byte and no more than there are |
| RespCodec.DecimalValue | src/resp.cpp:195-203 | printing a length in decimal and reading it back gives the length |
| RespCodec.DecimalLength | src/resp.cpp:195-199 | a number below a power of ten prints in that many digits at most, so encoded length lines stay clear of the 32-byte checks |
| RespCodec.BulkRoundTrip | src/resp.cpp:131-203 | one encoded payload is read back with its exact extent, whatever bytes it holds and whatever follows |
| RespCodec.RequestRoundTrip | src/resp.cpp:96-228 | for 1 to 1024 payloads, parsing the encoding followed by any bytes returns those payloads and consumes exactly the encoding |
| RespCodec.RequestPartial | src/resp.cpp:96-193 | every proper prefix of an encoded request is incomplete and never an error |
| RespCodec.AppendBulkReply | src/resp.cpp:195-203 | appends exactly the encoding of one payload |
| RespCodec.AppendBulkArray | src/resp.cpp:209-228 | appends exactly the encoding of the request |
| RespStreams.FeedStream | src/resp.cpp:41-62 | however a stream of encoded requests of any total length is cut, as long as no call overfills the buffer no call raises an error and the commands so far are exactly the requests received in full |
| RespStreams.StreamErrorFreeIff | src/resp.cpp:41-50 | for such a stream, errors are raised if and only if some call overfills the buffer |
| RespStreams.StreamDelivered | src/resp.cpp:41-62 | once all has arrived the commands are the requests and nothing is held back |
| RespStreams.StreamPrefixesOk | src/resp.cpp:64-193 | no prefix of a stream of encoded requests, of any length, raises an error, and all its lines are short |
| RespStreams.CutsCanMatter | src/resp.cpp:98-104 | an input that one call of Feed accepts and that fails when fed in two |
| RespInline.InlineRoundTrip | src/resp.cpp:72-94 | words joined by spaces on one line are read back as those words, and exactly the line is consumed |
| RespParser.RequestParser.ScanLine | src/resp.cpp:16-34 | finds the first line end at or after a position, and the end of the line without its carriage return |
| RespParser.RequestParser.ReadLength | src/resp.cpp:106-122 | a length is accepted exactly when it is all digits, within long long and within its limit, and then is its value |
| RespParser.RequestParser.SplitLine | src/resp.cpp:81-90 | the maximal runs of non-blank bytes |
| RespParser.RequestParser.TryParseInline | src/resp.cpp:72-94 | success drops exactly the line; any other outcome leaves the buffer |
| RespParser.RequestParser.ReadBulk | src/resp.cpp:131-189 | one bulk string with all its error and incomplete cases |
| RespParser.RequestParser.TryParseMultiBulk | src/resp.cpp:96-193 | success drops exactly the request; any other outcome leaves the buffer |
| RespParser.RequestParser.TryParseOne | src/resp.cpp:64-70 | one step is the parse function on the buffer, with error set exactly on an error |
| RespParser.RequestParser.ParseBuffered | src/resp.cpp:52-62 | takes off all complete commands and terminates; nothing happens after an error |
| RespParser.RequestParser.Feed | src/resp.cpp:41-50 | a call is the chunk function of the chunking results, including the buffer limit |
| RespParser.RequestParser.Reset | src/resp.cpp:36-39 | back to the empty parser |
| Crc.StepIsRegister | src/rdb.cpp:29-31 | one shift is linear over exclusive or and has an inverse |
| Crc.SerialByte | src/rdb.cpp:36-39 | shifting in eight bits one by one is adding the byte and shifting eight times |
| Crc.TableRound | src/rdb.cpp:37-39 | one table lookup does the work of eight shifts |
| Crc.BuildTable | src/rdb.cpp:24-35 | slot i of the table holds i shifted eight times |
| Crc.ComputeCrc32 | src/rdb.cpp:23-41 | the table-driven loop computes the bit-serial reflected CRC-32 |
| Crc.SerialInjective | src/rdb.cpp:36-39 | over any fixed text, different registers stay different |
| Crc.BurstDetected | src/rdb.cpp:23-41 | a change confined to four consecutive bytes always changes the checksum |
| Crc.TrailerResidue | src/rdb.cpp:255-268 | comparing a trailing checksum equals running the register over the trailer and testing for one residue |
| Values.SumRemove | src/db.cpp:13-48 | a sum over a hash table does not depend on the order it is taken in |
| Values.ValueSize | src/db.cpp:13-48 | walking the elements in any order gives the accounted size of the value |
| Values.EntrySize | src/db.cpp:50-52 | the accounted size of an entry |
| Values.TotalUpdate | src/db.cpp:54-118 | replacing one table moves the total by the difference of the two |
| Databases.Database.constructor | src/db.cpp:9-9 | empty tables and an exact account of zero |
| Databases.Database.MemSub | include/db.h:73-79 | subtraction that saturates at zero |
| Databases.Database.Lookup | src/db.cpp:54-67 | answers the live entry or none; exactly a stale entry is dropped and counted, and the account stays exact |
| Databases.Database.Touch | src/commands.cpp:692-713 | EXPIRE and PERSIST: exactly a live entry gets the deadline, a stale one is dropped and counted, and the account stays exact although it is not updated |
| Databases.Database.Set | src/db.cpp:69-83 | writes one entry, and the account stays exact on insertion and on replacement |
| Databases.Database.Delete | src/db.cpp:85-92 | drops one entry and answers whether it was there; the account stays exact |
| Databases.Database.FlushDb | src/db.cpp:110-114 | empties one table, subtracting in any order without ever saturating |
| Databases.Database.FlushAll | src/db.cpp:116-118 | empties all tables and the account is zero |
| Databases.Database.ExpireTable | src/db.cpp:124-145 | for every draw and walking order, only stale keys of the examined window go, the window has its exact size, and the count equals the size drop |
| Databases.Database.ActiveExpireCycle | src/db.cpp:120-147 | no live key is removed; the answer equals both the drop in keys over all tables and the growth of the expiry counter |
| Databases.FullSweep | src/db.cpp:129-144 | a table within the window and walked from its first key keeps no stale key |
| DatabaseRuns.Step | src/db.cpp:54-147 | each operation keeps the tables a thinned copy of a plain map and answers lookups as that map read with deadlines |
| DatabaseRuns.Run | src/db.cpp:54-147 | over every run with a clock that does not go back, deadline edits included, all lookup answers equal those of the plain map, and the account stays exact |
| DatabaseRuns.CyclesInvisible | src/db.cpp:120-147 | of two databases with equal tables one runs any operations and the other the same without the expire cycles: all lookup answers are equal |
| RdbCodec.WordValue | src/rdb.cpp:43-49 | a number that fits its bytes is read back from its little-endian form |
| RdbCodec.StrRoundTrip | src/rdb.cpp:56-105 | a string with its length is read back with its exact extent, at any position of any file |
| RdbCodec.PayloadRoundTrip | src/rdb.cpp:130-346 | a value of each of the five types is read back in the order written |
| RdbCodec.RecRoundTrip | src/rdb.cpp:125-353 | an entry with tag, key and deadline is read back |
| RdbCodec.SlotRoundTrip | src/rdb.cpp:121-354 | a table with its index and count is read back |
| RdbCodec.DumpScanned | src/rdb.cpp:108-360 | the reader accepts a written file and finds in it exactly the slots written |
| RdbCodec.UnpackPack | src/rdb.cpp:43-46 | the four checksum bytes written are read as the same word |
| RdbCodec.AcceptedIff | src/rdb.cpp:259-268 | a file passes the checksum exactly when the register ends at the residue |
| RdbCodec.BurstRefused | src/rdb.cpp:255-268 | a file that was read is refused after any change confined to four consecutive bytes, across the trailer's border too |
| RdbCodec.DumpByteRefused | src/rdb.cpp:255-268 | changing any one byte of a written file makes reading fail |
| Snapshots.ZSetBack | src/rdb.cpp:330-341 | the pairs of a map, in any order, rebuild the map and a sorted index that agrees with it |
| Snapshots.ValueBack | src/rdb.cpp:293-346 | whatever order a value was written in, the value read is the value |
| Snapshots.TableBack | src/rdb.cpp:284-353 | filling an empty table with its records gives the table |
| Snapshots.SnapshotRoundTrip | src/rdb.cpp:108-360 | loading the bytes of any snapshot of tables with lengths and counts below 2^32 and agreeing sorted-set indexes gives the same tables, deadlines and slots, for all five types and every writing order |
| Snapshots.CorruptionRefused | src/rdb.cpp:242-268 | a loadable file is refused after any change confined to four consecutive bytes |
| Rdb.PutHash | src/rdb.cpp:135-143 | writes the fields once each, in whatever order the table is walked |
| Rdb.PutDict | src/rdb.cpp:156-164 | writes the members once each with their score bits |
| Rdb.PutTable | src/rdb.cpp:121-168 | writes the index, the count and each entry once |
| Rdb.Serialize | src/rdb.cpp:108-173 | the output is the dump of some snapshot of the tables: one slot for each occupied table, in order, and the checksum; and loading it gives the tables back |
| Rdb.Reader.Need | src/rdb.cpp:66-72 | good exactly when no read failed before and the bytes are there |
| Rdb.Reader.ReadWord | src/rdb.cpp:77-90 | the little-endian number at the cursor, or zero and a failed cursor that has not moved |
| Rdb.Reader.ReadBytes | src/rdb.cpp:100-105 | the bytes at the cursor, never past the end of the file |
| Rdb.ReadHash | src/rdb.cpp:301-311 | the first of equal fields wins; rounds are paid for by bytes present, whatever count is claimed |
| Rdb.ReadList | src/rdb.cpp:312-320 | the strings in order; rounds are paid for by bytes present |
| Rdb.ReadSet | src/rdb.cpp:321-329 | the set of the strings; rounds are paid for by bytes present |
| Rdb.ReadZSet | src/rdb.cpp:330-341 | the map keeps the last score of a member and the list gets every pair, NaN scores included, at a place some levels lead to; rounds are paid for by bytes present |
| RdbLoad.ReadValue | src/rdb.cpp:293-350 | each tag reads its type; an unknown tag and a truncated value are told apart |
| RdbLoad.ReadRec | src/rdb.cpp:285-353 | one entry, or the error the file calls for |
| RdbLoad.ReadEntries | src/rdb.cpp:284-353 | all entries of a table stored as they are read, or the first error; rounds are paid for by bytes present |
| RdbLoad.ReadSlot | src/rdb.cpp:277-354 | one table, or a bad-index or entry error |
| RdbLoad.CheckFile | src/rdb.cpp:255-268 | magic and checksum are compared before anything is read |
| RdbLoad.LoadFromBytes | src/rdb.cpp:242-360 | for arbitrary bytes: an error leaves every field of the database unchanged; success replaces all tables by what the slots of the file are loaded as for the levels drawn, keeps the memory limit and makes the account exact; at most one round of work for every four bytes, and one more, over all its loops |
| RdbLoad.SaveThenLoad | src/rdb.cpp:108-360 | saving one database and loading into another makes tables and accounts equal |
| RdbZSets.RebuildZSet | src/rdb.cpp:330-341 | the loader's two inserts per pair, run on a real skip list with any level draws and any scores, give a content the loading results allow, and the sorted one when no score is NaN |
| RdbZSets.RebuildLive | src/rdb.cpp:156-341 | a live sorted set, its pairs written in any order and inserted one by one into a new list, has the same map and the same sorted content |
| Snapshots.LoadedOnce | src/rdb.cpp:330-341 | without NaN scores what a file is loaded as does not depend on the levels drawn |
| RdbZSets.LoadedAgreeIff | src/rdb.cpp:333-338 | for all pairs and all levels drawn, the two indexes agree after a load if and only if no score is NaN and no member has two scores that compare unequal |
| RdbSound.LoadedSoundIff | src/rdb.cpp:276-354 | for every file, whatever levels are drawn, the loaded tables are sound if and only if the last record under each key of each table has no NaN score and no member with two scores that compare unequal |
| RdbSound.LoadJudged | src/rdb.cpp:242-360 | the same of the loader on arbitrary bytes |
| RdbSound.SomeOutcome | src/rdb.cpp:276-354 | every file whose indexes are in range has an outcome |
| RdbSound.TwoScoresAccepted | src/rdb.cpp:333-338 | a file with one member at two scores that is accepted and leaves the two indexes different |
| RdbSound.NaNAccepted | src/rdb.cpp:333-338 | a file with one NaN score that is accepted and leaves the two indexes different |
| TxSpec.NextSound | src/commands.cpp:811-826 | a queue only ever holds known, arity-correct commands other than MULTI, EXEC, DISCARD and QUIT, and is empty outside a transaction |
| TxSpec.RepliesCounted | src/commands.cpp:2277-2280 | when each queued command gives one reply, EXEC's header is the number of replies that follow |
| TxSpec.QueueIsWhatWasSaid | src/commands.cpp:811-826 | after MULTI the queue is exactly the accepted commands said since, in order, and the error flag is set exactly when one was rejected |
| TxSpec.TransactionBlock | src/commands.cpp:2253-2289 | a closing EXEC takes effect as one block of exactly the queued commands, or not at all when one was rejected; DISCARD takes no effect; the client is idle after |
| TxSpec.InsideIsQuiet | src/commands.cpp:811-826 | until it closes, nothing said inside a transaction takes effect except QUIT |
| TxSpec.OwnHistory | src/commands.cpp:804-826 | a client's transaction state in any interleaving is that of its own history alone |
| TxSpec.Serializable | src/commands.cpp:2253-2289 | every interleaving equals the serial run of its turns, each turn's commands contiguous and in order |
| TxSpec.AlwaysSound | src/commands.cpp:811-826 | the queue invariant holds for all clients in every reachable state |
| Transactions.Enqueue | src/commands.cpp:811-826 | a rejected command sets the error flag and is not queued; an accepted one is queued last |
| Transactions.RunQueue | src/commands.cpp:2274-2280 | running a queue through the dispatcher itself equals running it as one block, and recursion ends at depth two |
| Transactions.Dispatch | src/commands.cpp:804-846 | one command moves the transaction state, answers, and lets exactly the block due take effect; a write over the memory limit is refused without effect, inside an EXEC too |
| Transactions.Serve | src/commands.cpp:804-846 | many client objects served by one dispatcher in any order show the states of the interleaving, and every reply is the one its turn calls for |
| Glob.GlobMatch | src/commands.cpp:782-802 | terminates; true only when the pattern's meaning matches, and exactly then when the pattern or the string is without a star |
| Glob.RunComplete | src/commands.cpp:786-799 | when no star of the pattern can pass the literal test, dropping all but the last star loses no match |
| Glob.RunIsSound | src/commands.cpp:782-802 | the matcher accepts only what matches |
| Glob.MissedMatches | src/commands.cpp:787-792 | for every string with a star, a pattern whose meaning matches it |
| Glob.MissedRefused | src/commands.cpp:787-792 | and which the matcher refuses |
| Glob.ExactIff | src/commands.cpp:782-802 | the matcher is right on every pattern if and only if the string holds no star |
| Glob.AgainMatches | src/commands.cpp:787-792 | for every pattern with a star, a string its meaning matches: the pattern with what follows the star once more |
| Glob.LiteralShort | src/commands.cpp:787-799 | the matcher refuses every string that is the pattern itself with more bytes after it |
| Glob.ExactPatternIff | src/commands.cpp:782-802 | the matcher is right on every string if and only if the pattern holds no star |
| Lists.ListIndexRange | src/commands.cpp:518-525 | clamping keeps exactly the positions between the two signed ends; an empty list always gives an empty window |
| Windows.WindowSelects | src/commands.cpp:518-525 | the clamped window holds exactly the elements whose position lies between the two signed ends |
| Lists.ListValue.Range | src/commands.cpp:1550-1562 | the elements between the two ends, for all signed indices |
| Lists.ListValue.Trim | src/commands.cpp:1694-1714 | leaves the same window LRANGE answers, and deletes the key exactly when a list that held something keeps nothing |
| Lists.ListValue.RemoveForward | src/commands.cpp:1631-1640 | the first matches go, or all for a zero count |
| Lists.ListValue.RemoveBackward | src/commands.cpp:1641-1653 | erasing the last collected positions is reversing, removing the first matches and reversing back; for the least 64-bit count, and only then, the loop leaves the collected positions and the call has no defined outcome |
| Lists.ListValue.Rem | src/commands.cpp:1630-1654 | the first matches, the last ones or all of them go, and the reply is the length drop, which is the smaller of the count and the matches, or all matches for count zero; undefined if and only if the count is the least 64-bit value |
| Lists.BoundWraps | src/commands.cpp:1647-1649 | with 64-bit wrap-around the loop bound falls below zero if and only if the count is the least one, whatever the list |
| Lists.RemovedLastCount | src/commands.cpp:1647-1652 | the number removed from the tail is the smaller of the count and the number of matches |

## Left out

- Sockets, polling, signals, connection closing and command-line parsing.
- Opening, writing and renaming files, fork and child reaping: only bytes in and bytes out are modelled.
- Level probabilities and expected cost: any level may be drawn.
- Floating-point addition (a parameter), parsing and printing of doubles, and the string commands built on them.
- INFO, CONFIG, CLIENT, HELLO and similar fixed replies.
- Transactions.Dispatch: the command table, the set of write commands, the memory in use and the bodies of ordinary commands are parameters; MULTI, EXEC and DISCARD are required not to be write commands, as in the source.
- Memory accounting of commands that edit values in place: the code does not update the account there.
- Wrap-around of the account and of sizes at 2^64: sizes are unbounded numbers.
- ZADD INCR with NX or XX: modelled as the code does it, with no claim about what it should mean.
- ZADD with an odd number of score and member words, and the parsing of its options.
- Glob classes and escapes, which the code does not implement.
- Missing-key and wrong-type paths of the list and sorted-set commands, except that LRANGE on no list never reads it.
- SDIFF with a missing first key, and the other set and hash commands.
- The size of a table and the answer of `Delete` are not part of the expiry result: both show whether a cycle has run.
- Freeing of skip-list nodes and the move constructor.
- ZSkipList.SkipList.Insert: requires fewer than 2^63 - 2 nodes, which memory guarantees.
- Lists.ListValue.Rem: requires fewer than 2^63 elements, which memory guarantees; says nothing of the list after the undefined call.
- RdbLoad.LoadFromBytes: a sorted set inside a database is its map and the content of its list, without the nodes of the list.
- DatabaseRuns.Run: of the edits through the pointer a lookup gives, only those of the deadline are operations of a run.
- RdbZSets.RebuildZSet: requires fewer than 2^63 - 2 pairs, which memory guarantees.
