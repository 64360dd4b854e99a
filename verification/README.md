# TinyCache, modelled and proved in Dafny

TinyCache is a Redis-like cache server. This project models four parts of it and proves what they are for.

* **The RESP2 codec.** `Decimal`, `Resp` and `RespGrammar` give integer tokens, values, limits, the recursive
  encoding, the grammar as a relation between frames and values, and a recursive-descent parser with three
  verdicts. `RespParser` is the incremental stack machine and `RespSerializer` the two explicit-stack traversals;
  their loops are proved equal to the recursive definitions. The parser decides the grammar, its verdicts are
  stable under more input, and parsing inverts encoding exactly on the values within the limits. `RespErrors` says
  which streams are malformed, and `WireFormat` fixes the bytes of the protocol.
* **The LRU shard.** `ShardModel` is a shard as a value: entries from most to least recently used, and counters.
  `LruShards` is the shard as it is built: nodes, expiry entries, a hash index, a recency list, a time-ordered
  expiry multimap and a running byte counter that refer to each other, with an invariant that operations break and
  restore. Each operation is proved equal to its value-level function. `ShardSteps` and `ShardProcessing` add the
  command layer; `Answers` says what each command replies and counts in terms of the entries listed. `ShardRuns`,
  `WorkingSet` and `Coherence` prove what whole sequences of commands keep, and
  `SweptCopies`, `SweepInvisibility` and `SweepsObserved` what background sweeps change for clients.
  `ExpirationController` is one round of the sweep loop, with the commands that run while it waits.
* **The session.** `Sessions` is the bounded buffer with its parse and read loops. The reads may have any sizes.
  `CacheServers` puts a session on the shards, among all other sessions and the sweeps.
* **The shards together.** `Interleaving` is the step system of all shards under one interleaving, with the dispatch
  of commands to shards. `ShardPools` is the server: heap-allocated, disjoint shards on which every interleaving of
  steps is proved to be that of the step system. `MultiDel` is DEL over several shards and `ServerInfo` is INFO, both
  with anything else running between their turns. `Glob` is the pattern matcher of CONFIG GET.

A byte is a `newtype`, 64-bit signed values are a subset type, and the parser's accumulator is a checked 64-bit
unsigned type. A reference to a `Node` or an `ExpireEntry` plays the part of a list or multimap iterator, and `null`
that of the end iterator. The type-byte switch of the parse loop is a method of its own, so that a completed value is
attached in one place; steps that several shard operations share (taking an expiry entry away, giving a node a new
one, moving a node to the front) are methods too. Clock readings are integers in nanoseconds, passed to each operation. In dead branches of
the source (the saturating subtractions, the orphan erase) the model asserts `false`, so they are proved unreachable.

Where the code and its comments differ, the model follows the code: a malformed buffer is not consumed
(include/respParser.hpp:37-38 says otherwise), DEL and EXPIRE look at residency and not at deadlines, a failed SET NX
still refreshes the key's recency, and the glob matcher takes a star in the text as a literal match for a star in the
pattern.

Two properties one might expect are false of the code, and their exact limits are proved instead:

* The glob matcher is right for every pattern on a text if and only if the text contains no star
  (`Glob.CorrectExactlyOnPlainTexts`).
* Background sweeps are meant to go unnoticed, but they can be seen. An expired entry that is still listed can make a
  SET evict a live one, which a later GET then misses (`SweepsObserved.EvictionRevealsSweep`). DEL and EXPIRE do not
  look at deadlines, so a sweep just before them shows if and only if a key they name is resident past its deadline
  (`SweptCopies.SweepSeenByDel`, `SweptCopies.SweepSeenByExpire`). An earlier sweep can show without that: it makes
  room, so that a key which expires later stays listed (`SweepsObserved.RoomRevealsSweepToDel`,
  `SweepsObserved.RoomRevealsSweepToExpire`). The exact limit, for every insertion of sweeps into a run of GET, SET, DEL,
  EXPIRE and TTL: none is seen if and only if each SET spares the living (what fits behind the new entry once the expired
  ones are gone also fits with them) and no key that a DEL or EXPIRE names is listed past its deadline, either in the run
  without sweeps or in the one run whose sweeps take all they can without taking that key
  (`SweepInvisibility.SweepsUnseenExactly`). It holds if every DEL and EXPIRE names only keys whose acknowledged deadline
  has not come (`SweepsObserved.CarefulSeesNoSweep`).

A round of the sweep loop that waited for a deadline need not remove anything, because the key it waited for can be
deleted, rewritten, extended or evicted in the meantime; it removes something exactly when the earliest deadline at
wake-up has come (`ExpirationController.CleaningRound`).

## Model

| member | source | states |
|---|---|---|
| Decimal.ParseInt64Token | src/respParser.cpp:224-273 | Accepts exactly an optional sign and one or more digits whose value is in the int64 range, and returns that value; no 64-bit step overflows. |
| Decimal.PrintInverse | src/respSerializer.cpp:26-33 | Parsing a printed integer gives it back for the whole int64 range, the minimum included, and is refused outside it. |
| Decimal.PrintNatInverse | src/respSerializer.cpp:26-33 | The digits printed for a number have that number as their value. |
| Decimal.PrintFitsBuffer | src/respSerializer.cpp:16-33 | No 64-bit integer prints longer than 20 bytes, so the 32-byte conversion buffer never fails. |
| Decimal.SignsAndZeros | src/respParser.cpp:224-273 | A plus sign and leading zeros before a number change nothing, a minus sign negates it, and nothing outside 64 bits is accepted. |
| Decimal.NoToken | src/respParser.cpp:228-247 | Nothing, a sign alone, or a token with another byte after its sign is no number. |
| RespGrammar.FindCrlf | src/respParser.cpp:208-221 | The result is the first CRLF pair, and none only if there is no pair. |
| RespGrammar.ItemSound | src/respParser.cpp:63-200 | The bytes of an item read as a value without elements, or as an array header, are a frame or header for it under the grammar. |
| RespGrammar.LeafComplete | src/respParser.cpp:68-183 | A frame of a value without elements, before any bytes, is read as that value and no further. |
| RespGrammar.OpenComplete | src/respParser.cpp:150-194 | A header of 1 to 2^20 elements, before any bytes, opens an array of that length. |
| RespGrammar.ItemStable | src/respParser.cpp:63-200 | An item that has been decided is decided the same way with any bytes behind it. |
| RespGrammar.VerdictStable | src/respParser.cpp:46-205 | A ready or malformed verdict, with its value and length, holds for every extension of the buffer. |
| RespGrammar.StrictPrefixNeedsMore | src/respParser.cpp:64-66 | Every strict prefix of a complete frame asks for more data. |
| RespGrammar.ParseSound | src/respParser.cpp:46-205 | The bytes consumed are a frame for the value under the grammar with the same limits. |
| RespGrammar.ParseComplete | src/respParser.cpp:46-205 | A frame followed by any bytes is parsed to its value, consuming exactly the frame. |
| RespGrammar.ParserDecidesGrammar | src/respParser.cpp:46-205 | The parser is ready with v after n bytes if and only if the first n bytes derive v. |
| RespGrammar.GrammarUnambiguous | src/respParser.cpp:46-205 | A stream starts with at most one frame, with one meaning. |
| RespGrammar.MalformedStartsNoFrame | src/respParser.cpp:46-205 | Bytes reported malformed are the beginning of no frame, whatever follows. |
| RespErrors.InvalidIsBad | src/respParser.cpp:68-199 | An item is refused exactly for an unknown first byte, a line that is no number where one is needed, a length out of range, or a bulk string without its end of line. |
| RespErrors.MalformedExactly | src/respParser.cpp:46-205 | A stream is malformed if and only if, after complete elements of its open arrays, it reaches a bad item or opens one array too many. |
| RespErrors.WaitsExactly | src/respParser.cpp:46-205 | More data is awaited if and only if the stream neither breaks so nor starts with a frame. |
| RespGrammar.EncodeDerives | src/respSerializer.cpp:42-80 | The encoding of a value within the limits is a frame for it. |
| RespGrammar.DerivesWithinLimits | src/respParser.cpp:17-19 | Only values within the limits (bulk size, array length, nesting, no CRLF in a line) have frames. |
| RespGrammar.RoundTrip | src/respSerializer.cpp:135-181 | Before any tail, parsing the encoding gives the value back and consumes exactly the encoding if and only if the value is within the limits. |
| WireFormat.EncodedBytes | src/respSerializer.cpp:42-80 | The bytes of every kind of value: `+`, `-`, `:`, `$` and `*` with their lengths and line ends, `$-1`, `*-1` and the error for an unknown type. |
| WireFormat.PrintedDigits | src/respSerializer.cpp:26-33 | Numbers are printed in the ten decimal digits, most significant first, with a minus sign below zero. |
| WireFormat.Limits | src/respParser.cpp:17-19 | The limits are 16 MiB for a bulk string, 2^20 elements and 4096 nested arrays, and no line end inside a line. |
| RespParser.FindCrlfFrom | src/respParser.cpp:208-221 | The scan loop finds the first pair at or after its start. |
| RespParser.ReadItem | src/respParser.cpp:68-199 | The switch on the type byte, with its length checks, returns the next item of the grammar. |
| RespParser.AttachValue | src/respParser.cpp:275-299 | Handing over a value closes every array it completes and leaves the verdict of the whole buffer unchanged; frames left on the stack are incomplete. |
| RespParser.AttachMore | src/respParser.cpp:287-293 | A value that does not complete its array leaves the parser where the grammar reads the next element; elements read and remaining still add up to the declared length. |
| RespParser.AttachDone | src/respParser.cpp:295-297 | A value that completes its array stands for handing that array to the enclosing one. |
| RespParser.ResumeOpen | src/respParser.cpp:186-194 | Pushing a frame for an array header keeps the verdict of the whole buffer. |
| RespParser.ParseImpl | src/respParser.cpp:46-205 | The stack machine returns exactly the verdict of the recursive grammar, on every buffer. |
| RespParser.Parse | src/respParser.cpp:303-318 | Buffer and output change only on a complete value; on error and on missing data both stay as they were. |
| RespSerializer.AppendNonArray | src/respSerializer.cpp:42-80 | Appends exactly the encoding of a value that is not an array. |
| RespSerializer.EstimateSerializedSize | src/respSerializer.cpp:82-133 | The size traversal returns exactly the length of the encoding. |
| RespSerializer.PendingNext | src/respSerializer.cpp:164-171 | Moving the top frame on splits what is pending into the next element and the rest, and lowers the number of unvisited values by that element's. |
| RespSerializer.PendingPush | src/respSerializer.cpp:154-158 | Entering an array leaves its elements, first to last, and then the enclosing arrays pending. |
| RespSerializer.PendingPop | src/respSerializer.cpp:172-173 | Popping an exhausted frame leaves the same bytes pending. |
| RespSerializer.SerializeIterative | src/respSerializer.cpp:135-181 | The iterative traversal ends, writes the recursive encoding of every value tree, and reserves exactly its length. |
| ShardRuns.TrimFits | src/lruShard.cpp:52-56 | What is kept fits the budget, and no longer prefix does. |
| ShardRuns.TrimKeeps | src/lruShard.cpp:52-56 | A prefix that fits is never cut. |
| ShardModel.AliveOrder | src/lruShard.cpp:190-204 | A sweep keeps every live entry at its place among the living. |
| ShardModel.NextDeadline | src/lruShard.cpp:206-211 | The least deadline of any entry, and none only if no entry has one. |
| ShardModel.WithoutPresent | src/lruShard.cpp:23-50 | Removing a resident key removes one entry and exactly its payload. |
| ShardModel.AliveWithout | src/lruShard.cpp:190-204 | Removing an expired entry changes nothing among the living, so sweeping key by key is sweeping at once. |
| LruShards.NodeOut | src/lruShard.cpp:31-37 | Taking a node and its expiry entry away leaves all other nodes and entries referring to each other. |
| LruShards.NodeScheduled | src/lruShard.cpp:158-161 | A node with its new expiry entry restores the bijection between deadlines and entries. |
| LruShards.ResidentNode | src/lruShard.cpp:82-85 | A listed node is the one entry of its key, and index and list agree after it is removed or moved to the front. |
| LruShards.IndexSize | src/lruShard.cpp:137-143 | The index has as many keys as the list has nodes. |
| LruShards.FirstIsEarliest | src/lruShard.cpp:206-211 | The first expiry entry has the earliest deadline of all nodes. |
| LruShards.ValidIsWellFormed | src/lruShard.cpp:23-50 | A valid shard lists no key twice and is within its budget. |
| LruShards.LruShard.constructor | include/lruShard.hpp:56-63 | A new shard is valid and empty. |
| LruShards.LruShard.Unschedule | src/lruShard.cpp:31-34 | Takes a node's expiry entry away and keeps every other cross reference. |
| LruShards.LruShard.Unlink | src/lruShard.cpp:36-43 | Removes the node from index and list and its payload from the counter; the counter never saturates. |
| LruShards.LruShard.RemoveKey | src/lruShard.cpp:23-50 | Removes exactly one node and its entry, counts it under the given reason, and does nothing at the end iterator. |
| LruShards.LruShard.Get | src/lruShard.cpp:58-73 | A live hit returns the value and moves the key to the front; an expired one is removed and counted. |
| LruShards.LruShard.Set | src/lruShard.cpp:75-128 | The new state is the written list trimmed to the budget, with the evictions counted; the invariant is restored. |
| LruShards.LruShard.AssignValue | src/lruShard.cpp:87-99 | Overwriting a value keeps the counter equal to the payload sum; the subtraction never saturates. |
| LruShards.LruShard.Schedule | src/lruShard.cpp:105-110 | Gives a node its deadline and an expiry entry just when it has one. |
| LruShards.LruShard.Overwrite | src/lruShard.cpp:83-112 | Rewrites a resident node in place and moves it to the front, keeping all others in order. |
| LruShards.LruShard.PushFront | src/lruShard.cpp:117-125 | Inserts an absent key at the front with its index and expiry entries. |
| LruShards.LruShard.Splice | src/lruShard.cpp:71 | Moves one node to the front and changes nothing else. |
| LruShards.LruShard.EvictLru | src/lruShard.cpp:213-228 | Removes the last node and counts one eviction; the orphan branch is dead. |
| LruShards.LruShard.EnforceMaxMemory | src/lruShard.cpp:52-56 | Ends within the budget, with the trimmed list and one eviction for each node dropped. |
| LruShards.LruShard.Del | src/lruShard.cpp:130-135 | Reports residency, expired or not, and removes exactly that key. |
| LruShards.LruShard.GetStats | src/lruShard.cpp:137-143 | The sample is the payload sum, the number of entries and the counters. |
| Answers.SampleSays | src/lruShard.cpp:137-143 | A sample says the lengths of all keys and values, the number of distinct keys and the budget, and changes nothing. |
| Answers.CountersMove | src/lruShard.cpp:23-50 | Between two samples evictions grow by exactly what a write made room for, and expired by exactly what a sweep or a lookup found past its deadline. |
| LruShards.LruShard.Expire | src/lruShard.cpp:145-164 | Reports residency and gives the key its deadline without changing its place in the list. |
| LruShards.LruShard.SetDeadline | src/lruShard.cpp:151-161 | Changes the deadline of one entry in place. |
| LruShards.LruShard.Ttl | src/lruShard.cpp:166-188 | -2 for a missing or expired key, which is removed; -1 without deadline; else whole seconds left, never negative. |
| LruShards.LruShard.GetNextExpireTime | src/lruShard.cpp:206-211 | The earliest deadline of any entry. |
| LruShards.LruShard.RemoveExpiredKeys | src/lruShard.cpp:190-204 | Removes exactly the expired entries, keeps the others in order and counts the removals; proved through the state where a listed node has lost its expiry entry. |
| ShardProcessing.ProcessGetCommand | src/commandExecutor.cpp:17-24 | The GET step of the shard's step system. |
| Answers.GetAnswer | src/commandExecutor.cpp:17-24 | GET finds exactly the value of the live entry of its key, and nothing if there is none. |
| ShardProcessing.ProcessSetCommand | src/commandExecutor.cpp:32-80 | The SET step with NX, XX, EX and refused options. |
| Answers.SetAnswer | src/commandExecutor.cpp:32-80 | NX writes if and only if no live entry has the key, XX if and only if one has; without option or with EX a SET always writes; anything else is refused and changes nothing; a write holds exactly the given value and deadline, and without one nothing is added or changed. |
| ShardProcessing.ProcessDelKeys | src/commandExecutor.cpp:82-92 | The loop deletes the keys in turn and counts those found. |
| Answers.DelAnswer | src/commandExecutor.cpp:82-92 | A batch of DEL answers how many of the distinct keys are listed, live or not, and removes exactly these. |
| ShardProcessing.ProcessExpireCommand | src/commandExecutor.cpp:94-108 | The EXPIRE step; a count that is not a number leaves the shard alone. |
| Answers.ExpireAnswer | src/commandExecutor.cpp:94-108 | EXPIRE answers 1 if and only if the key is listed, moves that one deadline to so many seconds from now, and leaves all else in place. |
| ShardProcessing.ProcessTtlCommand | src/commandExecutor.cpp:110-116 | The TTL step. |
| Answers.TtlAnswer | src/lruShard.cpp:166-188 | -2 if and only if no live entry has the key, -1 if and only if it has no deadline, else the whole seconds left. |
| ShardProcessing.ExecuteStep | src/commandExecutor.cpp:302-376 | Every step on the linked structure is the step of the abstract list. |
| ShardProcessing.ExecuteRun | src/commandExecutor.cpp:302-376 | Over any sequence of steps the linked structure gives the replies and ends in the state of the abstract list, its invariant kept throughout. |
| ShardRuns.SetKeepsLongestPrefix | src/lruShard.cpp:52-56 | SET keeps the longest prefix of the written list that fits; evictions grow by what is dropped. |
| ShardRuns.OversizedSetEmpties | src/lruShard.cpp:117-127 | A SET leaves the shard empty if and only if its own payload exceeds the budget. |
| ShardRuns.StepProgress | src/lruShard.cpp:23-204 | Every step keeps keys distinct and the payload within the budget; counters never fall, the budget never changes. |
| ShardRuns.RunProgress | src/lruShard.cpp:23-204 | The same over every sequence of steps. |
| ShardRuns.SweepExact | src/lruShard.cpp:190-204 | A sweep removes exactly what is due, counts it, leaves no deadline that has come, and a second one does nothing. |
| ShardRuns.StepAccounted | src/lruShard.cpp:23-50 | One step: residents, evictions and expiries change by insertions less deletions. |
| ShardRuns.RunConserves | src/lruShard.cpp:117-143 | The balance over every sequence of steps. |
| ShardRuns.ConservationFromEmpty | src/lruShard.cpp:117-143 | From an empty shard, fresh insertions equal residents, evictions, expiries and deletions together. |
| ShardRuns.DelAllExact | src/commandExecutor.cpp:82-92 | A list of keys deletes and counts its distinct resident keys, whatever repeats, and keeps the rest in order. |
| WorkingSet.StepKeepsOrder | src/lruShard.cpp:58-128 | After every step the list is ordered by time of last touch. |
| WorkingSet.RunKeepsOrder | src/lruShard.cpp:58-128 | The same over every sequence of steps. |
| WorkingSet.EvictsLeastRecentlyTouched | src/lruShard.cpp:213-228 | Whatever a SET evicts was last touched before everything it keeps, after any history. |
| WorkingSet.StepKeepsCovered | src/lruShard.cpp:52-128 | While the working set fits, a key and everything ahead of it are among the recently touched, and it is not evicted. |
| WorkingSet.WorkingSetResident | src/lruShard.cpp:52-128 | A touched key stays resident, unless deleted or expired, as long as its payload and the last payloads of the distinct keys touched since never exceed the budget. |
| Coherence.AgreesDeadline | src/lruShard.cpp:145-164 | EXPIRE moves the deadline of its own key to the given one and changes no value. |
| Coherence.StepAgrees | src/lruShard.cpp:58-204 | After every step a resident key holds what the acknowledged commands on it say. |
| Coherence.RunAgrees | src/lruShard.cpp:58-204 | The same over every sequence of steps. |
| Coherence.GetNeverStale | src/commandExecutor.cpp:17-80 | A value returned by GET is the last one acknowledged and not deleted since, and its deadline has not come. |
| Coherence.TtlNeverStale | src/lruShard.cpp:166-188 | A TTL reply other than -2 tells the last acknowledged deadline: -1 for none, else the whole seconds left. |
| Coherence.OwnerKnows | src/commandExecutor.cpp:378-471 | What a whole trace of all shards says about a key is what its owner's own steps say. |
| Coherence.ServerAgrees | src/commandExecutor.cpp:378-471 | After any trace of the server a resident key holds what all acknowledged commands, wherever they ran, say. |
| Coherence.ServerGetNeverStale | src/commandExecutor.cpp:17-80 | Every GET of every interleaving that finds a value returns the last one acknowledged anywhere before it, not deleted since and before its deadline. |
| Coherence.ServerTtlNeverStale | src/lruShard.cpp:166-188 | The same for the deadline told by every TTL of every interleaving. |
| SweptCopies.SweepSimulates | src/expirationController.cpp:13-29 | A sweep of a shard with the same live entries leaves a copy from which only what is due is missing. |
| SweptCopies.GetSimulates | src/lruShard.cpp:58-73 | A lookup finds the same on both and leaves one a copy of the other. |
| SweptCopies.TrimSimulates | src/lruShard.cpp:52-56 | Trimming behind a new entry that spares the living leaves one list a copy of the other. |
| SweptCopies.SetSimulates | src/lruShard.cpp:75-128 | So does a SET that spares the living. |
| SweptCopies.SparesOnCopy | src/lruShard.cpp:52-56 | A SET that spares the living on a shard does so on every copy. |
| SweptCopies.Victim | src/lruShard.cpp:52-56 | A SET that does not spare the living evicts a live entry that it would keep after a sweep. |
| SweptCopies.SweepSeenAfterSet | src/lruShard.cpp:75-128 | A sweep just before a SET leaves every later GET reply and the live entries unchanged if and only if the SET spares the living. |
| SweptCopies.DelSimulates | src/commandExecutor.cpp:82-92 | A DEL of keys due on neither shard counts the same on both and leaves one a copy of the other. |
| SweptCopies.ExpireSimulates | src/lruShard.cpp:145-164 | So does an EXPIRE of a key due on neither. |
| SweptCopies.SweepSeenByDel | src/lruShard.cpp:130-135 | A sweep just before a DEL changes its reply if and only if it names a key resident past its deadline. |
| SweptCopies.SweepSeenByExpire | src/lruShard.cpp:145-164 | The same for a sweep just before an EXPIRE. |
| SweepInvisibility.StepSimulates | src/lruShard.cpp:58-188 | A command that spares the living and names nothing due replies alike on a shard and on its swept copy, and leaves one a copy of the other. |
| SweepInvisibility.SweptForFits | src/expirationController.cpp:13-29 | The run swept in favour of a key is an insertion of sweeps into the run, with a clock that never goes back. |
| SweepInvisibility.Lingers | src/lruShard.cpp:190-204 | A key listed past its deadline after any insertion of sweeps is listed so in the run that favours it. |
| SweepInvisibility.RunFollows | src/expirationController.cpp:13-29 | Every insertion of sweeps into a fair run gives its replies, stays a copy of it, and lists no expired key that the favouring run does not list. |
| SweepInvisibility.SweepsAreInvisible | src/expirationController.cpp:13-29 | Sweeps inserted anywhere into a fair run of GET, SET, DEL, EXPIRE and TTL change no reply and no live entry. |
| SweepInvisibility.LingeringSeen | src/commandExecutor.cpp:82-108 | A DEL or EXPIRE naming a key that only the favouring run still lists replies differently there. |
| SweepInvisibility.SweepsUnseenExactly | src/expirationController.cpp:13-29 | No insertion of sweeps into a run of GET, SET, DEL, EXPIRE and TTL, broken off anywhere for any GET, is seen if and only if every command is fair to sweeps. |
| SweepsObserved.HistoryIgnoresSweeps | src/expirationController.cpp:13-29 | What the replies acknowledge about a key is the same with and without the sweeps. |
| SweepsObserved.CarefulIsFair | src/lruShard.cpp:130-164 | If every DEL and EXPIRE names only keys whose acknowledged deadline has not come and SETs spare the living, every command is fair to sweeps. |
| SweepsObserved.CarefulSeesNoSweep | src/expirationController.cpp:13-29 | Such a run shows no sweep, wherever sweeps are inserted. |
| SweepsObserved.EvictionRevealsSweep | src/lruShard.cpp:52-56 | A run from an empty shard whose last GET misses, and hits with one sweep inserted. |
| SweepsObserved.RoomRevealsSweepToDel | src/lruShard.cpp:130-135 | A run from an empty shard whose DEL counts nothing, and one key with a sweep inserted before the SET ahead of it. |
| SweepsObserved.RoomRevealsSweepToExpire | src/lruShard.cpp:145-164 | The same run with EXPIRE, which then revives the key for a GET. |
| Interleaving.GetShardIndex | include/shardRouter.hpp:11-19 | Any hash gives an index below the shard count. |
| Interleaving.ShardOfHash | include/shardRouter.hpp:11-19 | The index differs from the hash by a multiple of the shard count. |
| Interleaving.EveryShardSelected | include/shardRouter.hpp:11-19 | Every shard is selected by some hash. |
| Interleaving.BucketOrder | src/commandExecutor.cpp:409-413 | A bucket takes its keys in the order of the arguments, each as often as it occurs. |
| Interleaving.ShardRunsAlone | include/shardPool.hpp:37-55 | In every interleaving each shard behaves as if only its own steps happened. |
| Interleaving.InterleavingIrrelevant | src/commandExecutor.cpp:378-471 | Interleavings that show every shard the same steps end in the same state with the same replies. |
| Interleaving.StepKeys | src/commandExecutor.cpp:378-471 | Only a SET makes a key resident, and only its own. |
| Interleaving.ReplyAt | include/shardPool.hpp:37-55 | Each reply of a trace is that of its own step on the shards as the earlier steps left them. |
| Interleaving.DispatchRoutes | src/commandExecutor.cpp:378-471 | Commands on one key, shares of DELs, samples and sweeps, as the executor sends them, reach only the shard that owns their keys. |
| Interleaving.RoutingKept | include/shardRouter.hpp:11-19 | Steps sent to the owners of their keys leave every resident key in the shard its hash selects, under every interleaving. |
| Interleaving.ServerKeepsRouting | src/commandExecutor.cpp:378-471 | From empty shards, every trace of the dispatch keeps keys in their shards and shards within their budgets. |
| ServerInfo.InfoConsistent | src/commandExecutor.cpp:242-282 | With anything between its samples, INFO reports no more bytes used than available, and a later INFO no fewer evictions or expiries and the same budget. |
| ServerInfo.InfoSamplesTrace | src/commandExecutor.cpp:255-258 | The samples of one INFO are those of one trace at increasing moments. |
| ServerInfo.TotalsAdd | src/commandExecutor.cpp:255-269 | Every total of INFO is the sum of its own field over the samples. |
| ShardPools.ShardPool.constructor | src/shardPool.cpp:34-44 | At least one shard, as many as asked for otherwise; disjoint, empty and within their budgets. |
| ShardPools.ShardPool.RunOnShard | include/shardPool.hpp:37-55 | One atomic step changes one shard and leaves all others, heap and abstract state, alone. |
| ShardPools.ShardPool.ExecuteTrace | include/shardPool.hpp:37-55 | Every interleaving of steps on the linked shards gives the replies and ends in the state of the step system, and keeps keys in their shards. |
| ShardPools.ShardPool.ExecuteKeyCommand | src/commandExecutor.cpp:387-471 | GET, SET, EXPIRE and TTL are one step on the shard that owns their key. |
| ShardPools.ShardPool.RunTurn | src/commandExecutor.cpp:424-435 | What runs before the hop, then the batch, on the linked shards. |
| ShardPools.ShardPool.RunRemaining | src/commandExecutor.cpp:424-435 | The loop over the remaining buckets deletes each on its shard as it finds it and adds up the counts. |
| ShardPools.ShardPool.ExecuteDelSingle | src/commandExecutor.cpp:325-344 | With one shard there is one batch with all arguments. |
| ShardPools.ShardPool.ExecuteDelMulti | src/commandExecutor.cpp:407-437 | Home bucket first or not, each shard loses its bucket when its turn comes and the counts add up. |
| ShardPools.ShardPool.ExecuteDel | src/commandExecutor.cpp:407-437 | With anything between the batches, the reply is the sum over the shards of the distinct arguments resident when their batch ran; undisturbed, it is the number resident anywhere, none of them stays and the rest keeps its order. |
| ShardPools.ShardPool.ProcessInfoCommand | src/commandExecutor.cpp:255-269 | The loop samples shard after shard with anything in between; its totals are the sums of the samples, never more bytes used than available. |
| ShardPools.SplitByShard | src/commandExecutor.cpp:409-413 | Every argument goes to the bucket of its shard, in order. |
| MultiDel.BucketSuffices | src/commandExecutor.cpp:409-413 | On its own shard a bucket deletes and counts what the whole argument list would. |
| MultiDel.NextTurn | src/commandExecutor.cpp:424-435 | One turn of the loop runs the others and then the batch, and adds what it found to the count. |
| MultiDel.CountsResidents | src/commandExecutor.cpp:407-437 | Whatever runs between the batches, they count the distinct arguments resident on their shards at their moments. |
| MultiDel.BatchRemovesArguments | src/commandExecutor.cpp:82-92 | A batch removes exactly the arguments from its shard, keeps the order of the rest and touches no other shard. |
| MultiDel.ArgumentsGone | src/commandExecutor.cpp:407-437 | Once its owner has had its turn an argument is gone, and stays so unless it is set again. |
| MultiDel.DelIsFlat | src/commandExecutor.cpp:407-437 | Without interference, deleting bucket by bucket is deleting the list from one flat map, whatever the home shard and the shard count. |
| ExpirationController.CleaningRound | src/expirationController.cpp:13-29 | A round runs what other sessions do while it waits and then sweeps once; it removes something if and only if the earliest deadline at wake-up has come, and leaves nothing due. |
| ExpirationController.WaitsForDeadline | src/expirationController.cpp:13-26 | A round waits for the earliest deadline, three seconds if there is none, and not at all for one that has come. |
| ExpirationController.RemovesExactlyWhenDue | src/expirationController.cpp:28 | A sweep removes something exactly when the earliest deadline has come. |
| ExpirationController.UndisturbedRoundRemoves | src/expirationController.cpp:14-28 | A round that found a deadline, whose timer was not early and that nothing disturbed removes at least one key. |
| ExpirationController.DisturbedRoundRemovesNothing | src/expirationController.cpp:20-28 | A DEL during the wait, naming what would be due, leaves the round nothing to remove. |
| Sessions.ValuesAreFrames | src/session.cpp:29-54 | The values answered are those of a sequence of frames that ends where the undecided rest begins. |
| Sessions.FramesServed | src/session.cpp:29-54 | Complete frames that fit are read off one by one, whatever follows. |
| Sessions.PipelineNeverRefused | src/session.cpp:60-81 | A pipeline of frames that each fit is answered in full and never refused. |
| Sessions.OversizedExactlyRefused | src/session.cpp:60-81 | After frames that fit, the session refuses for size if and only if the buffer limit is reached with no verdict. |
| Sessions.LongFrameRefused | src/session.cpp:60-81 | A frame longer than the limit is refused after the replies to all frames before it. |
| Sessions.BufferDecides | src/session.cpp:29-35 | A verdict on the buffer is the verdict on the stream, and a full or final buffer has no other. |
| Sessions.NoCommandAnswered | src/session.cpp:44-50 | A value that is no command is answered `ERR invalid command` and changes nothing. |
| Sessions.FinalErrorTold | src/session.cpp:37-73 | A malformed stream ends with `ERR malformed request`, a full undecided buffer with `ERR request is too large`, anything else without an error. |
| Sessions.RepliesRecovered | src/session.cpp:106-123 | The written bytes parse back into exactly the replies, when these are within the limits. |
| Sessions.Session.constructor | src/session.cpp:17-23 | A zero message size counts as one; the buffer starts empty. |
| Sessions.Session.Read | src/session.cpp:75-104 | A read moves some bytes into the buffer, in order, never beyond the message size, and refuses exactly on a full buffer. |
| Sessions.Session.Answer | src/session.cpp:44-53 | One value gets one reply, from the command or as an invalid command. |
| Sessions.Session.Run | src/session.cpp:25-73 | For all read sizes, the final state and replies are those the byte stream determines: one per complete frame, in order, and at most one final error. |
| CacheServers.RequestExtends | src/commandExecutor.cpp:378-471 | A command of the session, with whatever the others do at its turns, continues one trace of the dispatch. |
| CacheServers.SessionIsOneTrace | src/session.cpp:25-54 | Whatever bytes a client sends and whatever the others do meanwhile, all that happens on the shards is one trace of the dispatch. |
| CacheServers.StepTold | src/commandExecutor.cpp:17-116 | The bytes answered to GET, SET, EXPIRE and TTL are the right ones for what the shard holds: the value or a null, `OK`, a null or the error text, 1 or 0, -2, -1 or the seconds left. |
| CacheServers.AnsweredOnKey | src/session.cpp:37-54 | The reply to a client's i-th command, when on a key, comes from one event on the owner of the key, after all its earlier commands, and says what that shard held then. |
| CacheServers.AnsweredGetNeverStale | src/commandExecutor.cpp:17-24 | The reply to a client's i-th command, a GET, is the bulk string last acknowledged to anyone before its event, not deleted since and before its deadline, or a null when the key's shard has no live entry for it. |
| CacheServers.AnsweredDelete | src/commandExecutor.cpp:407-437 | The reply to a client's i-th command, a DEL, is the number of distinct arguments resident on their shards when the batches ran, one for every shard; undisturbed, the number resident anywhere, none of which stays while the rest keeps its order. |
| CacheServers.AnsweredInfo | src/commandExecutor.cpp:242-282 | The reply to a client's i-th command, an INFO, has five lines with the sums of what each shard held when it was read, with anything in between, and never more bytes used than available. |
| CacheServers.TurnsTaken | src/commandExecutor.cpp:378-471 | The others have exactly their turns: before the session's own event, before each batch of a DEL but that of its own shard, and before each shard that INFO reads. |
| CacheServers.AnsweredFixed | src/session.cpp:44-54 | A command that touches no shard gets its fixed answer in its place. |
| Glob.GlobMatch | src/commandExecutor.cpp:179-215 | The loop ends and, on a text without a star, answers whether the pattern matches. |
| Glob.RunCorrect | src/commandExecutor.cpp:201-205 | From every position the loop can reach, backtracking to the last star alone finds every match. |
| Glob.CorrectOnPlainText | src/commandExecutor.cpp:179-215 | On a text without a star the matcher is right for every pattern. |
| Glob.CorrectExactlyOnPlainTexts | src/commandExecutor.cpp:186-198 | The matcher is right for every pattern on a text if and only if the text has no star. |
| Glob.Wildcards | src/commandExecutor.cpp:186-198 | `?` matches exactly the texts of one byte, `*` every text, any other byte itself. |

## Left out

- Sockets, coroutines, strands, timers, signals, threads and CPU affinity. Of the threading, the model has that a step on a shard is atomic and that anything can run between two steps.
- XXH3: the hash is an arbitrary function of the key.
- Reading the configuration, logging, container capacities and the load factor of the hash map: no reply depends on them.
- `Command::toCommand`, PING, COMMAND and the fixed CONFIG and COMMAND tables: the session takes them as a function from values to commands, of which the last three and a refused INFO section have a fixed answer.
- Spelling of SET options and `std::stoull`: a SET or EXPIRE step carries its option already split, with a case for an unknown option and one for a count that is not a number.
- The choice between the local fast path and a hop to another thread for single-key commands: both perform the same step on the same shard. A hop that waits is the same step later in the trace.
- CacheServers.NumberReply: gives no 64-bit number for a count or time left that exceeds 64 bits, which the program cannot hold.
- Timeliness of the expiration loop: what a sweep does is settled by the clock it reads on waking; how long after its deadline that is, is not modelled.
- SweepInvisibility.SweepsUnseenExactly: leaves out INFO, whose counters show every sweep that removes something.
- LruShards.LruShard.RemoveKey: does not model wrap-around of the 64-bit eviction and expiry counters or of the byte counter, which would need more than 2^64 events or bytes.
- LruShards.LruShard.Set: deadlines are unbounded integers, so an expiry count that overflows the clock's representation is not modelled.
- RespSerializer.SerializeIterative: container sizes are unbounded; a container of 2^64 elements or more is not excluded but cannot exist in the program.
- Sessions.Session.Run: failed writes are not modelled (the source ignores them), and the effect of other sessions on the server is part of the state that commands act on.
- ShardPools.ShardPool.ProcessInfoCommand: gives the totals; their text is that of `CacheServers.AnsweredInfo`.
- The string views that serve as index keys alias the node's own key; the model's key is an immutable field of the node, so that dangling keys are not expressible.
