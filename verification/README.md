# rdss in Dafny

rdss is a key-value server in the manner of Redis. One service thread owns the data; network threads
receive, parse and answer, and hop to the service thread for every command. This project models the parts
of rdss that are hard to get right and proves what they promise, over all inputs, all runs and all
intermediate states.

* **The hash table** (`Words`, `Scan`, `Chaining`, `Rehashing`, `HashTables`, `TableRuns`). The table grows by
  moving a few buckets at every operation, so most states have entries in two bucket vectors. The model keeps
  the bucket arrays and the linked entries. `HashTable.Valid` says that the table stands for a map in every
  half-rehashed state: every key once, in the bucket its hash and the rehash position select, the passed
  buckets empty, the count exact, and the load bound met. Whole runs answer like a plain map, and a sweep of the
  scan cursor hands out every staying key once while the table doubles under it.
* **The keyspace** (`Keyspace`, `Invisibility`, `TableAccess`, `DataService`, `Expiry`, `ServiceRuns`). Values and
  deadlines are in two tables. Commands are methods on the two tables, proved against functions on their
  contents, and those are compared with a store of (value, deadline) pairs that never removes a key for being
  stale. `ServiceRuns.Serve` joins the layers, for scripts of commands and cron rounds, with the evictions that
  commands cause, on the linked tables.
* **Eviction** (`RandomDraws`, `EvictionPools`, `Eviction`). Which keys a stream of random draws selects, the
  candidate pool, the eviction loop, and the dispatch that evicts before a write.
* **The protocol** (`Protocol`, `RequestParser`, `Refusals`, `InlineRequests`, `Replies`). The resumable request parser
  over a buffer that grows and moves, what it refuses, inline requests, and the gathered replies. The format is RESP2, the "Arrays" and "Bulk
  strings" sections of the Redis serialization protocol specification.
* **SET options** (`SetOptions`). Which option lists are accepted, what they mean, and the deadline arithmetic.
* **The executors** (`Hops`, `EventLoops`, `BufferRings`). The hop protocol as a state machine, one round of the
  event loop, and the ring of receive buffers.

Times are milliseconds. Clocks, time limits, the random number generator, how much a receive brings, how many
bytes an eviction gives back and how many a handler leaves are parameters: a contract holds whatever they are. The
time of commands does not go back; the cron job's active expiry reads the clock for itself and may be ahead of the
commands after it. `rand()` is an endless stream; where a loop waits for a lucky draw, the stream is only assumed
to bring every value again and again (`TableAccess.FairStream` gives one).
XXH64 is an arbitrary function from keys to numbers.

Where a promise turned out false of the code, the model keeps the code and states exactly when the promise holds:

* `SET` behaves like the store unless it is a plain `SET` without a new deadline on a key that has one, and either
  the key is live and `GET` is given without `KEEPTTL`, or the key is stale and `GET` or `KEEPTTL` is given
  (`Invisibility.CommandAgrees`, with `SetWithGetKeepsDeadline` and `KeepTtlOnStaleKeyIsLost`).
* Active expiry cannot be seen if and only if no key it removes has a deadline after the time of the next command;
  a cron round whose clock is ahead of that command can remove a key the command should still find
  (`Invisibility.InvisibleDeletion`, with `ExpiredAheadOfCommands`).
* A deadline entry shares its key object with the data entry unless `GETEX` gave the key its first deadline, and then
  until that deadline goes or `SET NX` on the stale key renews it (`DataService.SplitAfter`, which every command's contract gives). A
  `SET` or `SETEX` that overwrites such a deadline fails an assertion of the source, and no other command does
  (`DataService.Service.Execute`, with `FirstDeadlineDecides`); a run stops there (`ServiceRuns.Serve`).
* A scan sweep visits every hash exactly once if and only if none of its calls lands in the middle of a rehash
  (`Scan.SweepVisitsEveryHashOnce`); on the table every staying key is then handed out once, and that is so if the
  sweep starts outside a rehash and the operations between two calls finish the rehash they start
  (`TableRuns.SweepBetween`).
* Printing and parsing undo each other if and only if no string is nil and count and lengths fit 32 bits
  (`Replies.PrintParse`).
* An inline line is parsed the same in pieces as at once if and only if no receive stops inside it with 16 KiB
  reached (`InlineRequests.ReceiveLine`). Lines up to 16 KiB are never rejected; longer ones can be rejected by where
  the receives stop, and can be accepted if and only if the buffer can reach their end (`InlineRequests.LimitMatters`).
* A line is answered when it arrives if and only if it has a word (`InlineRequests.FeedLine`); after a blank one the
  client waits for another receive before it looks at what came with it (`InlineRequests.BlankLineWaits`).
* A decided request has an argument, as the client asserts, if and only if the count in its header is not 0
  (`Protocol.ArgumentsAreCounted`, with `EmptyArrayIsDecided`).
* Active expiry decides by the percentage of stale keys in a pass, for every threshold, if and only if a pass finds at
  most 42,949,672 of them: then their hundredfold fits the 32-bit product (`Expiry.RuleHoldsExactly`).
* The event loop tells the kernel of every completion it took, except when the wake-up message completes a batch
  (`EventLoops.Reap`).

`dafny verify dfyconfig.toml` checks everything.

## Model

| member | source | states |
|---|---|---|
| Words.Reverse | src/data_structure/hash_table.h:19-27 | the loop that builds its masks computes `Rev`, the exchange of neighbouring groups of 32, 16, ..., 1 bits |
| Words.RevReversesBits | src/data_structure/hash_table.h:19-27 | `Rev` is bit reversal: bit i of the result is bit 63 - i of the word, for every i |
| Words.RevInvolution | src/data_structure/hash_table.h:19-27 | reversing twice gives the word back |
| Words.NextIndex | src/data_structure/hash_table.h:29-43 | for a power-of-two size the search for the top bit and the two reversals compute `NextWord` |
| Words.NextWordIsReverseIncrement | src/data_structure/hash_table.h:29-43 | for 2^k buckets the next index stays below 2^k and is one more in k-bit reversed binary, modulo 2^k |
| Scan.NextWordValue | src/data_structure/hash_table.h:29-43 | the machine-word cursor follows the number-level successor |
| Scan.SingleCycle | src/data_structure/hash_table.h:29-43 | from 0 the cursor runs through all 2^k indices in one cycle; index b is met after exactly its reversal many steps, and 0 only after full rounds |
| Scan.BehindCursorStable | src/data_structure/hash_table.h:259-275 | doubling the table any number of times keeps every hash on its side of the cursor: the unvisited buckets are the split images of the unvisited ones |
| Scan.SweepVisitsEveryHashOnce | src/data_structure/hash_table.h:259-275 | over a sweep from 0 to 0 with growth between calls, every hash is visited exactly once if and only if no call lands mid-rehash, and never twice |
| Scan.StayingKeyVisitedOnce | src/service/expire_strategy.cc:39-60 | a key stored throughout the calls of a sweep is handed to at most one of them, and to exactly one if the sweep is complete and its last call is not mid-rehash |
| Scan.SweepEnds | src/data_structure/hash_table.h:259-275 | a sweep comes back to 0 before it has made more calls than the table then has buckets |
| Chaining.PushFront | src/data_structure/hash_table.h:313-322 | linking in front prepends to that bucket's chain and leaves all other buckets |
| Chaining.FindInBucket | src/data_structure/hash_table.h:339-352 | walking a chain finds the key's entry, and null only if no entry has the key |
| Chaining.Unlink | src/data_structure/hash_table.h:369-386 | the chain loses exactly the entry at that place |
| Rehashing.RehashBucket | src/data_structure/hash_table.h:428-446 | moving a bucket puts each of its entries in front of the chain its hash selects in the second vector, in order, and empties it; the count is the length of the chain |
| Rehashing.Lookup | src/data_structure/hash_table.h:325-337 | in every half-rehashed state a key is stored if and only if it is in the chain of the one bucket its hash selects |
| HashTables.HashTable.RehashSome | src/data_structure/hash_table.h:280-305 | the map is untouched; it examines at most 11n - 1 buckets and, unless it finishes, at least n; every key ends in the place of its chain that `Rehashed` gives; it reports completion exactly, and leaves room for an entry under the load bound |
| HashTables.HashTable.FindBucket | src/data_structure/hash_table.h:325-337 | the bucket selected against the rehash position, after a bounded piece of rehashing that keeps the map |
| HashTables.HashTable.Expand | src/data_structure/hash_table.h:390-426 | expands exactly when full and not rehashing; afterwards the load bound has room, so no second expansion is due before the first ends |
| HashTables.HashTable.FindOrCreate | src/data_structure/hash_table.h:139-161 | the key's entry, or a fresh one added under the given or a new key object; every other entry stays the same object |
| HashTables.HashTable.Find | src/data_structure/hash_table.h:193-196 | the entry the map gives, or null; the map is unchanged, and the chains change by one step of a pending rehash |
| HashTables.HashTable.Insert | src/data_structure/hash_table.h:164-170 | adds the key if it is absent and changes nothing else |
| HashTables.HashTable.Upsert | src/data_structure/hash_table.h:174-178 | the map gets the key and value; an existing entry is kept |
| HashTables.HashTable.UpsertShared | src/data_structure/hash_table.h:182-191 | as above with a shared key object; whether the asserted identity of the key object holds is a result, and if not nothing is written |
| HashTables.HashTable.Erase | src/data_structure/hash_table.h:217-227 | the map loses exactly the key, the count follows, and a table that is not rehashing stays so |
| HashTables.HashTable.TraverseBucket | src/data_structure/hash_table.h:259-275 | hands out each entry of the bucket at the cursor once and advances the cursor; mid-rehash it hands out nothing and returns 0 |
| HashTables.HashTable.GetRandomEntry | src/data_structure/hash_table.h:198-215 | returns the entry picked in the bucket of the first draw that hits a non-empty bucket; it is in the table; null only without buckets |
| HashTables.PickInBucket | src/data_structure/hash_table.h:354-367 | the two walks return the entry at the draw modulo the chain length |
| HashTables.HashTable.EveryEntryCanBeDrawn | src/data_structure/hash_table.h:198-215 | in every rehash state each stored entry is returned for some pair of draws the generator can make |
| TableRuns.Replay | src/data_structure/hash_table.h:139-305 | every run of finds, inserts, upserts, erases and rehash steps gives the replies and contents of a plain map; an entry stays the key's entry until the key is erased; rehash steps at the end that ask for enough buckets leave no rehash pending |
| TableRuns.SweepBetween | src/data_structure/hash_table.h:259-275 | on the real table, with any operations between the calls: the first call hands out bucket 0, each call only keys that are there; no staying key is handed out twice; every staying key exactly once if the sweep ends outside a rehash, which it does if it starts outside one and each round of operations finishes what it starts; a sweep unfinished when the script ends made fewer calls than there are buckets |
| TableRuns.StayingKeyHandedOnce | src/service/expire_strategy.cc:39-60 | the same law for the recorded calls of a sweep on the table |
| Invisibility.MatchesIsEquality | src/service/data_structure_service.cc:83-101 | agreeing key by key is the same as showing equal contents at that time |
| Invisibility.ExpireMatches | src/service/data_structure_service.cc:83-101 | lazy expiry changes nothing that can be seen, and the lookup gives the store's value |
| Invisibility.DeleteAllMatches | src/service/commands/key_commands.cc:42-58 | DEL removes what the store removes and counts the different live keys named, repeats once |
| Invisibility.LookupAllMatches | src/service/commands/string_commands.cc:390-405 | MGET and EXISTS, expiring as they go, answer from the unexpired store, repeats counted each time |
| Invisibility.SetAllMatches | src/service/commands/string_commands.cc:252-262 | MSET leaves the pairs without deadlines, later pairs winning |
| Invisibility.SetMatches | src/service/commands/string_commands.cc:206-250 | a faithful SET, in every mode and with every option, changes and answers as the store |
| Invisibility.SetDiffers | src/service/data_structure_service.cc:117-137 | an unfaithful SET leaves its key different from the store's |
| Invisibility.UnfaithfulIsHeard | src/service/data_structure_service.cc:117-137 | an unfaithful SET can be heard: a TTL right after it answers differently from the store |
| Invisibility.CommandAgrees | src/service/data_structure_service.cc:110-179 | a command keeps tables and store alike and answers alike if and only if it is faithful; coherence is kept in any case |
| Invisibility.InvisibleDeletion | src/service/data_structure_service.cc:38-179 | over every run of commands, evictions and active expiry, with expiry possibly ahead of the commands, every command meets, answers and leaves what the store shows if and only if every command met is faithful and no key was removed by expiry whose deadline is after the time of the next command |
| Invisibility.HeardApart | src/service/data_structure_service.cc:83-179 | whenever that condition fails, some command sent after a part of the run is answered differently by the tables and the store |
| Invisibility.InOrderIsDue | src/service/expire_strategy.cc:16-96 | if no active expiry is ahead of a command after it, nothing is removed before its time |
| Invisibility.PlainRunsInvisible | src/service/commands/string_commands.cc:206-262 | runs whose plain SETs have neither GET nor KEEPTTL, or set a deadline, are always faithful |
| Invisibility.RunCoherent | src/service/data_structure_service.cc:83-179 | after every run each key with a deadline has data |
| Invisibility.SetWithGetKeepsDeadline | src/service/data_structure_service.cc:117-137 | SET with GET on a live key keeps the old deadline: later the value is gone, while the store still has it |
| Invisibility.KeepTtlOnStaleKeyIsLost | src/service/commands/string_commands.cc:233-238 | SET with KEEPTTL on a stale key writes a value that cannot be read |
| Invisibility.ExpiredAheadOfCommands | src/service/expire_strategy.cc:24-55 | active expiry at 10 removes a key with deadline 10, and a GET at the command time 9 misses it |
| TableAccess.Table.Rehash | src/service/data_structure_service.cc:181-196 | rehashing in steps of 100 keeps the contents and, if time never runs out, finishes |
| TableAccess.Table.GetRandomEntry | src/data_structure/hash_table.h:198-215 | on a non-empty table the sampler ends under a fair generator and returns the entry that the next draws select in the table as it is laid out |
| RandomDraws.SampleIsDetermined | src/data_structure/hash_table.h:198-215 | layout, random stream, position and sample size determine the keys sampled, with repeats, and the draws used |
| TableAccess.Table.LaysKeys | src/data_structure/hash_table.h:198-215 | in every rehash state that layout holds each stored key once, in the bucket a draw equal to its hash selects |
| DataService.Service.FindOrExpire | src/service/data_structure_service.cc:83-101 | returns the entry if and only if the key is live, and erases a stale key from both tables |
| DataService.Service.EraseKey | src/service/data_structure_service.cc:103-108 | both tables lose the key, though the deadline table is touched only if there was data |
| DataService.Service.SetData | src/service/data_structure_service.cc:110-179 | tables, status and old value after the write, in all three modes, stale keys included |
| DataService.Service.SetAndGet | src/service/data_structure_service.cc:123-135 | the write with GET gives the live old value and reports an insertion whether or not there was an entry |
| DataService.Service.IncrementalRehashing | src/service/data_structure_service.cc:181-196 | contents and sharing are unchanged; without a time limit both rehashes finish |
| DataService.Service.Get | src/service/commands/string_commands.cc:382-388 | reply and tables of GET; coherence and key sharing kept |
| DataService.Service.MGet | src/service/commands/string_commands.cc:390-405 | reply and tables of MGET over the whole key list |
| DataService.Service.Strlen | src/service/commands/string_commands.cc:367-380 | reply and tables of STRLEN |
| DataService.Service.Exists | src/service/commands/string_commands.cc:550-560 | reply and tables of EXISTS, counting repeats |
| DataService.Service.Ttl | src/service/commands/key_commands.cc:12-40 | -2 for a missing or stale key (then erased), -1 without deadline, else the whole seconds n left: 1000 n <= deadline - now < 1000 n + 1000 |
| Keyspace.StoreTellsTime | src/service/commands/key_commands.cc:37-39 | the store replies n to TTL for a key with a deadline if and only if n is the number of whole seconds left |
| DataService.Service.Del | src/service/commands/key_commands.cc:42-58 | tables and count of DEL |
| DataService.Service.GetDel | src/service/commands/string_commands.cc:407-416 | the live value is returned and the key erased from both tables |
| DataService.Service.GetEX | src/service/commands/string_commands.cc:456-464 | reply and tables of GETEX; afterwards exactly the keys that had two key objects and still have a deadline have them, and its own key if this is its first deadline |
| DataService.Service.SetNX | src/service/commands/string_commands.cc:312-321 | reply and tables of SETNX, a stale key counting as absent |
| DataService.Service.MSet | src/service/commands/string_commands.cc:252-262 | tables after MSET |
| DataService.Service.SetEX | src/service/commands/string_commands.cc:299-301 | value and deadline are written and Ok replied unless the deadline there is under another key object; then only the value is, and there is no reply |
| DataService.Service.Set | src/service/commands/string_commands.cc:225-250 | tables and reply of SET for every option; no reply if and only if it overwrites a deadline under another key object, and then only the value is written |
| DataService.Service.Execute | src/service/data_structure_service.cc:64-81 | any command changes and answers as the pure model, keeps coherence, and leaves exactly the keys of `SplitAfter` with two key objects; it fails the assertion if and only if it overwrites the deadline of a key that has two |
| DataService.FirstDeadlineDecides | src/service/commands/string_commands.cc:299-301 | SET, GETEX with a deadline, SETEX fails the assertion; SETEX, GETEX with a deadline, SETEX is answered |
| Expiry.ExpireVisited | src/service/expire_strategy.cc:42-55 | of the entries of a bucket exactly the stale ones are erased from both tables, and counted |
| Expiry.Expirer.SamplePass | src/service/expire_strategy.cc:37-60 | the inner loop ends at the first position by which enough keys were sampled, or at the last; it removes exactly the stale keys between the old and the new cursor in scan order and samples exactly the keys there; mid-rehash nothing |
| Expiry.Expirer.ActiveExpire | src/service/expire_strategy.cc:16-96 | ends without help from the clock; removes, samples and leaves the cursor exactly as the recursive `Removed` says: pass after pass until nothing is left or sampled, few of the sampled are stale, time is up, or as many were sampled as there were; that is a run of passes as `Ran` says, each but the last with more than the threshold percentage stale, in time and with keys left to sample, the last without; from both tables, counted exactly; none mid-rehash; all stale keys if the cursor starts at 0 and a loop may sample every key |
| Expiry.RemovedInPasses | src/service/expire_strategy.cc:27-93 | an active expiry is a run of passes, each taking up where the one before it ended: after all but the last the share of stale keys was over the threshold, there was time, and not as many keys were sampled as there were; the last sampled nothing, or was within the threshold, or over `MAX_EXPIRED`, or out of time, or completed that number; it removed and sampled what its passes did |
| Expiry.Percentage | src/service/expire_strategy.cc:68-79 | the 32-bit product meets the threshold whenever the real percentage does, and only then if at most `MAX_EXPIRED` keys were stale |
| Expiry.RuleHoldsExactly | src/service/expire_strategy.cc:68-79 | the rule is the percentage rule for every sample size and threshold if and only if at most `MAX_EXPIRED` keys were stale |
| ServiceRuns.Serve | src/service/data_structure_service.cc:38-81 | a script of commands, dispatched with eviction, and cron rounds, each with its own limits, on the two tables is a run of the pure model with its replies; each cron round removes what active expiry does from some cursor, or nothing mid-rehash; the run stops at the first command that fails the assertion on key objects, and only there; clients cannot tell it from the store that forgets what is evicted and knows no cron if and only if every SET met is faithful and the cron job removes no key before the next command's time, and then the replies are the store's; coherence is kept and the keys with two key objects are given exactly |
| ServiceRuns.ServeFromEmpty | src/service/data_structure_service.cc:16-81 | a new server without a memory limit, with any hash, policy, script, cron rounds and time limits, gives the replies of the store that starts empty, for SETs that are faithful on every table and a cron clock not ahead of later commands, until a SET or SETEX meets a key that GETEX named before |
| EvictionPools.EmplaceKeeps | src/service/eviction_strategy.cc:116-120 | adding a candidate keeps the pool ordered by mark, loses no mark and adds the new one |
| EvictionPools.EvictionPool.Sample | src/service/eviction_strategy.cc:108-120 | the pool gets the keys that the next draws select, in that order |
| EvictionPools.EvictionPool.Trim | src/service/eviction_strategy.cc:122-126 | the earliest candidates up to the limit stay |
| EvictionPools.EvictionPool.TakeOldest | src/service/eviction_strategy.cc:128-138 | takes the first live candidate and forgets exactly the dead ones before it |
| EvictionPools.TakenIsOldest | src/service/eviction_strategy.cc:108-141 | what a round takes is live, from the pool or the sample, no later than any live candidate of the pool, nor than a sampled key unless a dead candidate holds its mark, and earlier than all that is left; a round that takes nothing found only dead candidates and empties the pool |
| EvictionPools.EvictionPool.GetSomeOldEntry | src/service/eviction_strategy.cc:108-141 | each round samples as many keys as the setting says, or all there are if fewer; the draws decide the samples and these the entry taken and the pool left, by a first round or, only if that takes nothing, a second from the empty pool on the table as the lookups of the first left it; the entry is stored, its mark as recorded, no later than any live candidate that was in the pool and earlier than all left, which come from the pool or the sample; the pool stays below its limit |
| Eviction.Evictor.MaxmemoryExceeded | src/service/eviction_strategy.cc:29-40 | the bytes over a non-zero limit |
| Eviction.Evictor.PickVictim | src/service/eviction_strategy.cc:55-83 | the random policy picks what one draw selects; the least-recently-used policy what sampling into the pool gives |
| Eviction.Evictor.EvictOne | src/service/eviction_strategy.cc:55-98 | the victim so picked leaves both tables and the tracked bytes fall by what its erasure gives back |
| Eviction.Evictor.Evict | src/service/eviction_strategy.cc:42-104 | ends; each victim is the one its turn picks, from where the turn before left the draws, the pool and the marks; what is left of the tracked bytes is given by the number of keys evicted; stops at the first key by which enough was freed; succeeds if and only if enough was; fails only without a policy or with no key left; erases the evicted keys from both tables and counts them |
| Eviction.Evictor.Invoke | src/service/data_structure_service.cc:64-81 | a write handler starts only when what eviction left is within a non-zero limit, and no key more than needed was evicted; otherwise out of memory with nothing left to evict; reads never evict; then the command ends as on the tables without the evicted keys; the tracked bytes afterwards are what the handler makes of that |
| Eviction.WritesAreThoseThatStore | src/service/data_structure_service.cc:72-78 | the commands that memory is checked for are exactly those that give a key a new value on some table, DEL, and the empty MSET |
| SetOptions.ToTimePoint | src/service/commands/string_commands.cc:82-115 | 64-bit arithmetic in which nothing overflows gives a deadline exactly when the sum or product fits 64 bits |
| SetOptions.ExtractExpireOptions | src/service/commands/string_commands.cc:82-139 | which of not found, syntax error, not an integer and a deadline results, and the deadline |
| SetOptions.PrintedIsParsed | src/service/commands/string_commands.cc:70-78 | a printed number is read back if and only if 64 bits hold it |
| SetOptions.OnlyNumbersAreParsed | src/service/commands/string_commands.cc:70-78 | an argument without a digit, or with another character but for a sign in front, is no number |
| SetOptions.UnitsMean | src/service/commands/string_commands.cc:85-115 | EX n, PX n, EXAT n and PXAT n are accepted exactly if n is positive and the deadline fits 64 bits, and mean 1000 n from now, n from now, 1000 n and n |
| SetOptions.SecondsAreMilliseconds | src/service/commands/string_commands.cc:85-103 | EX n and PX 1000 n are accepted alike and mean the same deadline |
| SetOptions.ExtractSetOptions | src/service/commands/string_commands.cc:151-204 | accepts exactly the lists with at most one of NX and XX and at most one positive, in-range deadline not beside KEEPTTL; gives what they mean; a rejection names the first group that does not fit |
| SetOptions.OrderIrrelevant | src/service/commands/string_commands.cc:151-204 | acceptance and meaning are the same for every order of the option groups |
| SetOptions.OneMeaning | src/service/commands/string_commands.cc:151-204 | an accepted list means one thing |
| SetOptions.SetFunction | src/service/commands/string_commands.cc:206-250 | SET from its arguments: too few, rejected with nothing changed, or executed as the options mean |
| Protocol.DecisionStable | src/resp/resp_parser.cc:61-168 | once a byte string decides a request or an error, more bytes do not change the decision, its arguments or its length |
| Protocol.ArgumentsAreCounted | src/client.cc:86-88 | a decided request has as many arguments as its header counts, so one if and only if that is not 0 |
| Protocol.EmptyArrayIsDecided | src/resp/resp_parser.cc:146-168 | an array of length 0 is a decided request without arguments |
| RequestParser.MakeRoomFor | src/base/buffer.cc:11-20 | a greedy size adds as much again as is needed, at most 1 MiB; otherwise exactly what is needed |
| RequestParser.Buffer.EnsureAvailable | src/base/buffer.cc:29-42 | room is made, received bytes keep their offsets, and the old start is reported exactly when memory moved |
| RequestParser.MultiBulkParser.Parse | src/resp/resp_parser.cc:61-125 | a resumed parse reaches the decision of a fresh one on all bytes so far, with the same arguments shown by the views and the same consumed length; what is refused is `Refusals.FaultRefused` |
| RequestParser.MultiBulkParser.ParseArgNum | src/resp/resp_parser.cc:146-168 | reads the array header as the pure format does, or waits, or rejects; which counts it rejects is `Refusals.BadCountRefused` |
| RequestParser.MultiBulkParser.BufferUpdate | src/resp/resp_parser.cc:133-139 | after the buffer moved all results so far show the same bytes at the new place |
| RequestParser.EnsureBuffer | src/client.cc:125-139 | growing the buffer between receives keeps the parser's state valid |
| RequestParser.ReceiveRequest | src/client.cc:61-91 | for every byte stream and every cut into receives, with growth and moves: done or error if and only if one parse of all bytes that arrive decides so, with the same arguments and length; with as many receives as bytes, if and only if the whole stream does |
| Refusals.NumberReadBack | src/resp/resp_parser.cc:97-101 | a printed number is read back, sign included, if and only if 32 bits hold it, whatever follows its digits |
| Refusals.NoNumber | src/resp/resp_parser.cc:97-101 | a line without a digit at its start, or behind a minus sign there, is no number |
| Refusals.BadCountRefused | src/resp/resp_parser.cc:156-161 | a header with a count that is negative or over 32 bits is malformed, whatever follows |
| Refusals.FaultRefused | src/resp/resp_parser.cc:84-112 | behind any well-formed strings, a string without dollar sign, without length, with a length that is negative or over 32 bits, or without a line end at its length makes the request malformed, whatever follows |
| Refusals.CutRequestIsUndecided | src/resp/resp_parser.cc:80-106 | of a request that is read back no proper prefix is accepted or refused |
| InlineRequests.SplitLine | src/resp/resp_parser.cc:32-49 | the ranges are exactly the words of the line |
| InlineRequests.OneDivision | src/resp/resp_parser.cc:32-49 | a line has only one division into words |
| InlineRequests.WordsComeBack | src/resp/resp_parser.cc:34-49 | a line made of words with blanks between them, and perhaps before and after, is divided into exactly these words |
| InlineRequests.ParseInline | src/resp/resp_parser.cc:17-56 | error, wait, blank line or the words with their addresses, and how much is consumed |
| InlineRequests.ReceiveLine | src/resp/resp_parser.cc:17-56 | a line in pieces: error if and only if a receive stops inside it with the limit reached; done if and only if the receives bring it all without that, with the words of the whole line; how far each receive comes follows from the buffer size, what is ready and the stream |
| InlineRequests.LimitMatters | src/resp/resp_parser.cc:24-30 | every cut accepts a line if and only if it is within the limit; some cut accepts it if and only if the buffer can reach its end |
| InlineRequests.CutDecides | src/resp/resp_parser.cc:24-30 | the same line, over the limit, is rejected with one cut and answered with another |
| InlineRequests.Dispatch | src/client.cc:20-48 | which parser runs, and that its result is that parser's |
| InlineRequests.FeedLine | src/client.cc:61-91 | a line that arrives in an empty buffer is answered if and only if it has a word; what came after it stays unread |
| InlineRequests.BlankLineWaits | src/client.cc:61-91 | a line that arrives with a blank line before it waits for another receive; arriving after it, it is answered |
| Replies.IntToChars | src/resp/replier.cc:19-28 | writes the decimal text and a line end at the place and nothing before it, in the 13 bytes the source asserts or as many as the number needs |
| Replies.StrToIovecs | src/resp/replier.cc:30-43 | the pieces added read as the bulk string, use at most 14 scratch bytes, and disturb no earlier piece |
| Replies.ResultToIovecs | src/resp/replier.cc:73-96 | 32 scratch bytes per string, and never fewer than the assertion of the source asks for the header, suffice; the pieces read after all writes are the encoded array |
| Replies.PrintParse | src/resp/replier.cc:73-96 | the parser reads a printed array back to the same strings if and only if none is nil and count and lengths fit 32 bits, consuming all of it |
| Refusals.RepliesToldApart | src/resp/replier.cc:30-43 | two printed array replies are the same bytes if and only if the lists are the same, nils included, when lengths and counts fit 32 bits |
| Refusals.NilIsNoLength | src/resp/replier.cc:15 | nil is printed as a length line of -1 and nothing more |
| Hops.OnePlace | src/runtime/ring_executor.h:21-47 | a continuation is in no two queues, submission queues or threads |
| Hops.NoOverlap | src/client.cc:86-90 | an invocation is on the service executor, and no two overlap |
| Hops.StepKeeps | src/client.cc:61-117 | every step of kernel, executors and coroutines keeps the invariant |
| Hops.HopFits | src/runtime/util.cc:9-18 | a hop to another executor frees the thread and posts the client to its target behind earlier posts; to its own it goes on at once; every task stays where one of its kind can be |
| Hops.DispatchOrder | src/runtime/ring_executor.cc:173-187 | reaping completions in queue order keeps hops first come, first served |
| Hops.SerialisedHops | src/client.cc:61-117 | in every state of every run: one place per continuation, commands only on the service executor, store and replies of the logged commands run one after the other, hops served in the order they reached the service queue |
| Hops.RequestsAccounted | src/client.cc:61-117 | in every state of every run the requests a client's receives brought are those of its log entries, in order, and then the one it has received and not run; requests and malformed input received are as many as writes done, and one more while one is not yet answered; the end or a failed write is the last of it |
| Hops.EveryRequestServed | src/client.cc:61-117 | every run goes on, by executor steps alone, to a state in which all requests received were run in order and all replies handed on; a connection is closed if and only if its receives brought the end or a write failed, and otherwise awaits a write if one is owed, else a receive |
| Hops.Drain | src/runtime/ring_executor.cc:171-190 | from every state of the invariant the executors' own steps lead to one in which every continuation waits for the kernel or is gone |
| Hops.ClientsSee | src/client.cc:86-113 | each client was sent its replies of that sequential execution, in order, all but at most one; served hops are a prefix of the arrivals |
| EventLoops.Reap | src/runtime/ring_executor.cc:171-190 | continuations are resumed in order up to the wake-up, with a submit per full batch; the kernel is told of all taken completions unless the wake-up completes a batch, and then of one batch less |
| BufferRings.ValMask | src/runtime/ring_executor.cc:290-297 | masking with 2^k - 1 is the remainder by 2^k |
| BufferRings.BufferRing.constructor | src/runtime/ring_executor.cc:213-254 | every entry is offered once, in order |
| BufferRings.BufferRing.GetBufferView | src/runtime/ring_executor.cc:256-274 | the view shows the bytes read circularly from the entry, contiguous or copied, and remembers the entry |
| BufferRings.BufferRing.PutBufferView | src/runtime/ring_executor.cc:276-303 | exactly the covered entries go back, in circular order behind those offered, across the end and the 16-bit tail; none is lost, doubled or overwritten |
| BufferRings.BufferRing.ShowAndReturn | src/runtime/ring_executor.cc:256-303 | showing and giving back is a round trip for every start entry and length |
| BufferRings.GiveBack | src/runtime/ring_executor.cc:276-303 | lent entries always fit back, and every entry stays offered once or lent, never both |

## Left out

- HashTables.HashTable.Insert: needs fewer than 2^30 entries, because bucket numbers are 32-bit signed in the table.
- HashTables.HashTable.FindOrCreate: has the same bound on the entries when it may create one.
- HashTables.HashTable.Upsert: has the same bound on the entries.
- HashTables.HashTable.UpsertShared: has the same bound on the entries.
- HashTables.HashTable.Expand: has the same bound on the entries.
- TableRuns.Replay: asks for room for all its operations under that bound.
- TableRuns.SweepBetween: asks for room for all operations of its script.
- DataService.Service.SetData: asks for room for one entry.
- DataService.Service.SetAndGet: asks for room for one entry.
- DataService.Service.SetNX: asks for room for one entry.
- DataService.Service.GetEX: asks for room for one deadline entry.
- DataService.Service.MSet: asks for room for all its pairs.
- DataService.Service.SetEX: asks for room for a data and a deadline entry.
- DataService.Service.Set: asks for room for a data and a deadline entry.
- ServiceRuns.Serve: asks for room for what the script may add; the keys evicted before a command are stored ones, and which they are is stated by `Eviction.Evictor.Evict`.
- ServiceRuns.ServeFromEmpty: is restricted in the same way, to a cron clock not ahead of later commands, and to SETs with NX, XX, a deadline, or neither GET nor KEEPTTL; `ServiceRuns.Serve` covers the others.
- Builds without assertions: a run ends where an assertion of the source fails.
- HashTables.HashTable.TraverseBucket: hands the entries out as a list; the code reads an entry's link after a callback that may have destroyed the entry.
- DataService.Service.EraseKey: takes the key by value; the code goes on using a view of the erased entry's key.
- DataService.Service.Execute: argument counts, command names, the last-access marks that commands write and the error replies for malformed arguments are not part of the commands; `SetOptions.SetFunction` covers the arguments of SET.
- Eviction.Evictor.Evict: how many tracked bytes an erase gives back is a parameter, never negative; from the second turn on the table is known by its keys, each once in the bucket of its hash, not by their order there.
- Eviction.Evictor.Invoke: asks for room for what the command may add; the memory bound holds at the start of the handler, as in the source, and what the handler leaves is a parameter.
- Expiry.Expirer.ActiveExpire: the percentage is compared exactly, without floating-point rounding; statistics are not kept.
- Hops.EveryRequestServed: the executors can always finish what was received; that the kernel lets them is not part of the model.
- InlineRequests.ReceiveLine: one line with a word per reset, on an owned buffer.
- RequestParser.ReceiveRequest: one request per reset, on an owned buffer; pipelined requests and partial requests in ring-buffer views are not modelled.
- The moment in which an entry made by the sharing upsert has no key object yet: the model sets the key object when the entry is made.
- `HashTable::Clear`, which only the destructor calls.
- GETSET, APPEND, SETRANGE, GETRANGE, SUBSTR and MSETNX, whose code differs from what is documented for them, and the number parsing of SETEX and PSETEX.
- `ResultToStringView`, one constant or one number per reply.
- io_uring calls, sockets, listeners, start-up and shutdown, configuration, INFO text, logging, statistics and the client list.
- XXH64 itself, reference counting and allocator placement.
