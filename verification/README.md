# Strix: the cache behind the proxy, verified

Strix is a semantic cache for LLM requests. Its engine keeps a table of slots, each with a
vector, a claim time and a packed 64-bit control word, and stores payloads in one 4 GiB ring
buffer. A bump allocator writes records at the head; a second-chance collector, the Snowplow,
walks behind at the tail and skips, evicts or relocates what it meets. The gateway in front lets
one request per slot ask the model while the others wait on a promise.

This project models that machinery in Dafny and proves what it is for.

* **Ring and control words implement a map.** `Runs.dfy` takes any sequence of claims, fills,
  hits, expiries and collector iterations from start-up on. A slot is readable exactly when a
  SetCache filled it and the collector has not evicted it since, and a hit returns the bytes of
  the latest fill. The proof rests on an invariant (`Invariant.dfy`): the records allocated and not
  yet reclaimed tile the window between tail and head, each is stored where it belongs, and every
  readable slot owns exactly one of them.
* **End to end.** `Sessions.dfy` takes any sequence of CheckCache, SetCache and collector
  iterations, with vectors, clock and answers. A hit serves the payload of the latest SetCache of
  its slot, which came after the slot's latest claim, whose prompt scores highest and at least the
  threshold; after a miss the same prompt is served or told to wait.
* **One defect, with its exact reach.** The back-pressure test of `AllocatePayload` leaves the
  padding out. A run keeps the invariant if and only if all its SetCache records fit with their
  padding counted (`Runs.RunKeepsInv`), which can be tested before each call. `Overshoot.dfy` shows
  that a granted record that does not fit destroys between one and ten bytes, all in the header of
  the oldest record; rescues are safe regardless. What clients see survives even that, until the
  collector runs on the window that has become longer than the buffer: the theorems about the map
  ask no more than that it does not (`Settled`). `FaultyRun.dfy` builds a whole run at the real
  constants in which it does, and a hit serves bytes never stored for its slot.
* **While all records fit, the collector comes to rest**, or finds the ring too full for a rescue.
  `Collector.dfy` says exactly when that is, and `ExhaustedRun.dfy` builds a run at the real
  constants that gets there although all its records fit. After an overshoot there is no such
  promise: the collector may then take payload bytes for a header. `Orphans.dfy` follows the records
  that failed SetCache calls leave behind until they are cleared away.
* **Interleavings.** `Allocator.dfy` and `Lifecycle.dfy` split the lock-free loops into their
  loads and compare-and-swaps, for any number of threads; `Herd.dfy` does the same for pioneers
  and their herds. Three laws of the atomic model turn out to need a condition at this level, and
  have an exact one, with an interleaving that breaks it: claim times (`ClaimTime.dfy`), the tail
  leaving readable slots behind (`Straggler.dfy`, `LeftBehind.dfy`), and the node id of a miss
  (`Race.dfy`).
* **Search.** `Scan.dfy` states what the scan of the L0 slots must find without its loop, and what
  an answer means; `CosineSimilarity.dfy` and `Embedder.dfy` prove the arithmetic behind scores.
* **The code's own form.** `MemoryArena.dfy`, `Service.dfy`, `Registry.dfy`, `Embedder.dfy` and
  `CosineSimilarity.dfy` hold the classes and loops of the source, updated in place and proved to
  compute the functions and predicates that the theorems are about.

An RPC, and one iteration of the collector loop, is one atomic step in `ArenaModel.dfy` and what
builds on it. The clock, the embedding of a prompt, the readings of the shutdown flag, the square
root, and what other threads do between the steps of a method come from outside as parameters.

Three places where words and code differ. The protocol file says that a miss carries a node id above
−1, but the code answers a miss with −1 when another request has claimed the slot meanwhile
(`Races.FirstRequestMissesWithoutSlot`). A comment in `registry.go` says that the promise removed is
the one fulfilled, but the delete goes by node id (`Herd.OlderDeleteRemovesNewer`). And a rescue that
finds the ring exhausted throws on the collector thread, where nothing catches; an exception that
leaves a thread's function ends the process, so back-pressure meant for one caller takes the whole
engine down.

`dafny verify dfyconfig.toml` verifies the project.

## Model

| member | source | states |
|---|---|---|
| Node.UnpackOfPack | engine/include/node.hh:28-42 | the four packed fields do not leak into each other; each comes back truncated to its width |
| Node.PackOfUnpack | engine/include/node.hh:28-42 | every 64-bit word is the packing of its fields |
| Node.WordsAgreeIffFieldsAgree | engine/src/arena.cc:93-98 | a compare-and-swap against a word rebuilt from fields succeeds exactly if all four fields agree |
| Node.StateReadFromTopBits | engine/src/service.cc:207-208 | shifting a word right by 62 reads off its state |
| Node.WordLayout | engine/include/node.hh:28-42 | two bits of state on top, then the reference bit, 24 bits of length and 37 of offset |
| Ring.PutThenSlice | engine/src/arena.cc:221-232 | bytes laid down across the border or not are read back |
| Ring.PutFrame | engine/src/arena.cc:221-232 | a write changes no byte of a window that ends before it and less than a lap behind |
| Ring.HeaderRoundTrip | engine/src/arena.cc:70-81 | a header written in front of the border is read back by the collector's cast, field by field |
| Ring.RecordLayout | engine/include/arena.hh:13-18 | identifier, node id and length lie in this order, lowest byte first, and the text follows |
| Ring.MaskedInjective | engine/src/arena.cc:86 | within the live window a 37-bit offset names one virtual offset |
| Ring.Pad | engine/src/arena.cc:166-174 | padding is shorter than a header, and after it no header straddles the border |
| Invariant.InitialInv | engine/src/arena.cc:13-32 | the freshly built arena satisfies the invariant |
| Invariant.OwnerAtTail | engine/src/arena.cc:85-89 | the masked comparison succeeds for a readable slot if and only if it owns the record at the tail |
| Invariant.OwnershipIsExclusive | engine/src/arena.cc:79-89 | two readable slots never own one record, one slot never owns two, and their ranges are disjoint |
| Invariant.CollectorSeesTheQueue | engine/src/arena.cc:60-81 | the collector stops only at the oldest record, reads its true header and payload, leaps exactly over padding, and never takes the advance-by-one branch |
| Invariant.RescueCopiesTheOldest | engine/src/arena.cc:103-146 | a rescue writes a record with the same node, length and bytes, moves one slot's offset and cools it, and changes nothing else |
| Invariant.RescueKeepsInv | engine/src/arena.cc:103-149 | a rescue keeps the invariant with no condition on padding, since it reclaims what it overshoots into |
| Invariant.CollectKeepsInv | engine/src/arena.cc:45-150 | every collector iteration keeps tiling, storage and ownership |
| Invariant.SetCacheKeepsInv | engine/src/service.cc:197-219 | a refused SetCache changes nothing, and a granted one, successful or not, keeps the invariant if and only if its record fits with padding |
| Invariant.StepKeepsInv | engine/src/service.cc:16-229 | an atomic step keeps the invariant if and only if it is not a granted SetCache whose record does not fit with padding |
| Invariant.StepKeepsSound | engine/src/arena.cc:158-164 | every step, an overshooting SetCache too, leaves a state that satisfies the invariant or refuses all further allocations, if only the collector does not run on a window longer than the buffer |
| Refinement.WriteReadRoundTrip | engine/src/arena.cc:188-235 | for every offset and length, reading at the returned offset or at that offset reduced to 37 bits gives the payload written |
| Refinement.ReadSurvivesAppend | engine/src/arena.cc:153-186 | a granted write leaves every readable payload as it was, even if it overshoots |
| Refinement.SetCacheRefines | engine/src/service.cc:173-229 | a successful SetCache adds its payload to the map and nothing else; any other leaves the map alone |
| Refinement.SetCacheAnswers | engine/src/service.cc:177-219 | a bad argument is refused, a full ring is an internal error, and otherwise the record is written and SetCache succeeds iff the slot is pending, wherever the record lies |
| Refinement.CollectRefines | engine/src/arena.cc:83-149 | a collector iteration removes the entry it evicts and leaves all other payloads as they are |
| Refinement.HeldIffLatest | engine/src/service.cc:197-219 | over any sequence of changes to an entry, it is there iff filled and not dropped since, with the payload it was filled with last |
| Refinement.StepRefines | engine/src/service.cc:103-131 | every atomic step, one that overshoots included, is a step of the map, and a hit answers with the map's value |
| Runs.RunKeepsInv | engine/src/arena.cc:43-186 | the allocated records tile the window, are stored intact and are owned as the slots say, in every state of a run, if and only if every granted SetCache record fits with padding |
| Runs.CollectorFollowsTheRecords | engine/src/arena.cc:60-81 | if and only if all records fit, head and tail stay within the buffer of each other throughout and the collector meets records in allocation order, leaping exactly over padding |
| Runs.FittingIsSettled | engine/src/arena.cc:46-67 | a run whose records fit never lets the collector run on an overshot window |
| Runs.RunRefines | engine/src/service.cc:16-229 | over every run whose collector does not run on an overshot window, the arena moves as the map does, from empty, and replies to hits accordingly |
| Runs.ReadableIffFilled | engine/src/service.cc:197-219 | in the same runs a slot is readable iff it has been filled and not evicted since, and holds the payload of its latest fill |
| Runs.HitServesLastFill | engine/src/service.cc:103-119 | in the same runs a hit returns exactly the bytes of the slot's latest successful SetCache, and misses iff there is none |
| Overshoot.WriteSparesWindowIffFits | engine/src/arena.cc:158-174 | a granted record is laid over no byte of the window if and only if it fits with its padding counted |
| Overshoot.OverwrittenBytes | engine/src/arena.cc:158-174 | exactly which bytes of the window a granted record destroys |
| Overshoot.OvershootHitsTheOldestHeader | engine/src/arena.cc:158-174 | an overshoot destroys at most ten bytes, all in the header of the record at the tail |
| Overshoot.OldestRecordSafeIffFits | engine/src/arena.cc:158-186 | the oldest record survives every payload of a given length if and only if that length fits with padding |
| Overshoot.CollectorFollowsIffFits | engine/src/arena.cc:59-80 | after a granted SetCache the collector's next iteration goes by the records for every payload of that length if and only if the record fits |
| FaultyRun.HitServesForeignBytes | engine/src/arena.cc:158-174 | a concrete run from start-up in which an overshoot makes a later hit return bytes its slot was never filled with |
| FaultyRun.StepAstray | engine/src/arena.cc:73-77 | with its identifier destroyed, the collector advances byte by byte into a record still in use |
| Collector.CollectMakesProgress | engine/src/arena.cc:45-150 | under the invariant every iteration cools a slot or shortens the window, or finds the ring below the watermark or exhausted |
| Collector.CollectDecides | engine/src/arena.cc:49-149 | by watermark, padding, and the oldest record's slot alone, which of rest, leap, skip, eviction, rescue and failure an iteration is, and what it changes |
| Collector.CollectorComesToRest | engine/src/arena.cc:45-150 | left alone in a state that satisfies the invariant, the collector reaches the low watermark or an exhausted rescue after finitely many iterations, only forgetting entries |
| Collector.FittingRunComesToRest | engine/src/arena.cc:45-150 | from wherever a run whose records fit has got to, the collector left alone comes to rest or finds the ring exhausted |
| Collector.RescueFailsIff | engine/src/arena.cc:85-106 | under the invariant an iteration finds the ring exhausted iff the window is over the low watermark, the slot of the oldest record is in use, hot and points at it, and there is no room for a copy |
| ExhaustedRun.RescueFindsRingExhausted | engine/src/arena.cc:103-106 | a concrete run from start-up, all of whose records fit, after which the collector's next iteration finds the ring exhausted |
| Orphans.FailedSetLeavesOrphan | engine/src/service.cc:197-211 | the record of a SetCache that reports failure, overshooting or not, is pointed at by no readable slot |
| Orphans.OrphanStaysOrphan | engine/src/service.cc:197-219 | in every later state of a run that record is allocated iff the tail has not passed it, and while it is, no readable slot points at it |
| Orphans.OrphanIsReclaimed | engine/src/arena.cc:85-89 | an iteration that meets an orphan changes no readable slot and no readable payload, and reclaims it unless a pending slot happens to carry its offset |
| Orphans.RemovalIsNeutral | engine/src/arena.cc:85-149 | the step of a run that removes an orphan is a collector iteration, moves the tail to its end and changes no readable slot and no readable payload |
| MemoryArenas.MemoryArena.constructor | engine/src/arena.cc:13-35 | builds the initial arena |
| MemoryArenas.MemoryArena.AllocatePayload | engine/src/arena.cc:153-186 | however often the swap fails, spuriously or because other threads move the head, the outcome is that of the atomic allocation at the head which the last try met, and the test had passed on all tries before |
| MemoryArenas.MemoryArena.WritePayload | engine/src/arena.cc:210-235 | in one or two copies, lays down exactly the record's bytes at the granted offset |
| MemoryArenas.MemoryArena.ReadPayload | engine/src/arena.cc:188-208 | in one or two copies, returns the circular window behind the header |
| MemoryArenas.MemoryArena.CopyRecordText | engine/src/arena.cc:115-136 | the two-pointer copy moves the text intact in at most three chunks, none overlapping itself |
| MemoryArenas.MemoryArena.Rescue | engine/src/arena.cc:103-146 | if the ring grants the space, lays a copy of the oldest record down and lets its slot take the copy over, cold; otherwise changes nothing |
| MemoryArenas.MemoryArena.CollectorIteration | engine/src/arena.cc:45-149 | one pass of the loop body computes the model's collector step |
| MemoryArenas.MemoryArena.RunGarbageCollector | engine/src/arena.cc:43-151 | for all readings of the shutdown flag the loop keeps the invariant and only forgets entries; it stops at the first reading that is set, or at an exhausted rescue, and then tells that the process terminates |
| MemoryArenas.InvIsMemorySafe | engine/src/arena.cc:79-83 | under the invariant an iteration indexes inside the table and copies inside the window |
| Scan.StepKeepsDated | engine/src/service.cc:137-153 | if a slot is dead exactly when its claim time is zero, this is so after any step; Sessions.SessionIsDated has every state |
| Scan.ScanLeavesNoOverdueClaim | engine/src/service.cc:55-80 | with claim times in order, the scan leaves no scanned slot pending for more than thirty seconds, and exactly the dead and overdue slots are free; Sessions.NoOverdueClaimAfterCheck has every state |
| Scan.ScanIsExpiries | engine/src/service.cc:41-90 | the scan's effect on the table is a sequence of atomic expiries |
| Scan.BestIsUnique | engine/src/service.cc:82-89 | the best live slot, lowest index first, is well defined |
| Scan.AnswersKeep | engine/src/service.cc:16-163 | CheckCache keeps the invariant and the map, whatever it answers, also after an overshoot |
| Scan.AnswersAreSteps | engine/src/service.cc:36-163 | an answer is the expiries of the scan followed by at most one atomic step: a hit, which leaves its slot hot, or a claim |
| Scan.HitServesTheBestEntry | engine/src/service.cc:94-120 | one hit serves the map's entry for the highest scoring live slot, which reaches the threshold, ties going to the lowest index; Sessions.HitIsTheBestStoredAnswer says where entry and vector come from |
| Scan.PendingNamesTheBestClaim | engine/src/service.cc:122-125 | a request told to wait is given the pending slot that scores highest among the live ones, at least the threshold, lowest index first |
| Scan.MissIffNothingSimilar | engine/src/service.cc:94-163 | CheckCache misses or reports high traffic iff no live slot reaches the threshold; it claims the first slot that is dead or overdue and fails iff there is none |
| Scan.StepKeepsNormalised | engine/src/service.cc:142-153 | no step but a claim brings a slot back to life, so slots in use keep their normalised vectors; Sessions.SessionIsNormalised has every state |
| Scan.AnswersKeepNormalised | engine/src/service.cc:149-151 | a claim stores the normalised query in its slot, and CheckCache changes no other vector |
| Scan.SamePromptIsRecognised | engine/src/service.cc:94-126 | while a slot with the prompt's own vector is live the answer is a hit or a request to wait, on a slot with that vector, and the node id given is that slot's |
| Scan.ClaimLivesThirtySeconds | engine/src/service.cc:63-78 | a claim is live up to and including thirty seconds after it was made and overdue from then on |
| Scan.ClockSetBackExpiresClaims | engine/src/service.cc:63 | ages are unsigned, so a clock that is set back makes all earlier claims overdue at once |
| Scan.SecondRequestIsHeld | engine/src/service.cc:122-158 | a second CheckCache for the same prompt right after a miss and within thirty seconds is not sent to the model; Sessions.MissHoldsTheHerd allows any calls in between |
| Races.AloneAnswers | engine/src/service.cc:94-163 | without other threads the raced specification of CheckCache is the atomic one |
| Races.UnclaimedIffLost | engine/src/service.cc:137-163 | a miss with node id −1 is answered iff CheckCache set out to claim a slot it saw dead, and the word was not dead at the load or had changed by the swap; it and all answers but a claim leave every vector alone |
| Races.RacedHitOrPending | engine/src/service.cc:94-126 | in a race the slot served or named is the top scorer of the scan, met readable or pending; its payload is the one of the word met, and it becomes hot iff that word is still there |
| Races.RacedAnswersTouchTwoSlots | engine/src/service.cc:36-163 | CheckCache changes no slot but the overdue ones, the best and the first free, and nothing else in the arena |
| Races.UnclaimedHadRival | engine/src/service.cc:140-163 | by the log of all swaps: a slot seen dead is not handed out only if another request has claimed it meanwhile, and a rival claim that is still alive is enough |
| Races.FirstRequestMissesWithoutSlot | engine/src/service.cc:146-163 | on the very first request, a rival claim between load and swap leads to a miss with node id −1 |
| Sessions.SessionKeepsInv | engine/src/service.cc:16-229 | over every sequence of RPCs and collector iterations the arena's invariant holds throughout if and only if every granted record fits |
| Sessions.HeldIffFilled | engine/src/service.cc:197-219 | the cache holds an entry for a slot iff a SetCache filled it and no iteration has evicted it since, and it is the payload of the latest such SetCache |
| Sessions.StoreIsHeldIffPending | engine/src/service.cc:177-219 | over every session a SetCache is what the cache holds for its slot afterwards iff the slot was pending, the size right and the ring had room |
| Sessions.SlotHoldsItsClaim | engine/src/service.cc:142-153 | in every state, without condition, a slot in use carries the query vector and the time of its latest claim |
| Sessions.SessionIsDated | engine/src/service.cc:137-153 | in every state a slot is dead exactly when its claim time is zero |
| Sessions.SessionIsNormalised | engine/src/service.cc:149-151 | with normalised queries every slot in use has a normalised vector, in every state |
| Sessions.NoOverdueClaimAfterCheck | engine/src/service.cc:55-80 | after every CheckCache of every session no scanned slot has been pending for more than thirty seconds |
| Sessions.ClaimPrecedesFill | engine/src/service.cc:142-219 | an entry was filled after the latest claim of its slot, and the slot's vector is the query of that claim |
| Sessions.HitIsTheBestStoredAnswer | engine/src/service.cc:36-131 | over every session a hit returns the payload of the latest SetCache of a slot not evicted since, filled after its latest claim, whose query is the slot's vector, reaches the threshold and is the maximum over the live slots, lowest index first |
| Sessions.PendingWaitsForAPioneer | engine/src/service.cc:55-126 | over every session a request is told to wait only for a slot that an earlier miss handed out at most thirty seconds ago, for the highest scoring prompt |
| Sessions.UsedSlotGetsSecondChance | engine/src/arena.cc:91-145 | over any calls, between a claim, fill or hit of a slot and its eviction the collector has rescued it once |
| Sessions.MissHoldsTheHerd | engine/src/service.cc:122-158 | for thirty seconds after a miss, whatever calls come in between, the same prompt gets a hit or is told to wait, on a slot with its own vector, whose node id it is given, unless the collector evicts the slot |
| Sessions.StoredPromptIsServed | engine/src/service.cc:94-126 | once its slot is filled, a prompt is not sent to the model again before that entry is evicted |
| Service.SemanticService.ScanL0 | engine/src/service.cc:36-90 | the loop finds the best live slot, its score and the first free slot, and expires exactly the overdue claims |
| Service.SemanticService.CheckCache | engine/src/service.cc:16-163 | answers and updates table and vectors as specified by `Races.RacedAnswers`, whatever words other threads put into the two slots before each load and each swap that follow the scan |
| Service.SemanticService.SetCache | engine/src/service.cc:173-229 | validates, writes and fills, vectors untouched; however often the swap fails, the outcome is that of the atomic SetCache on the word that the last try met, and all words before it were pending |
| Lifecycle.EveryScheduleIsExplained | engine/src/service.cc:108-219 | every interleaving of loads and compare-and-swaps has the effect of its successful swaps one after the other |
| Lifecycle.ClaimsMinusDeaths | engine/src/service.cc:63-76 | per slot, claims minus deaths is 1 if the slot is not dead and 0 if it is |
| Lifecycle.SchedulesObeyTheCount | engine/src/service.cc:140-158 | the counting law holds after every schedule of any number of threads |
| Lifecycle.OneFillPerClaim | engine/src/service.cc:204-219 | at most one SetCache reports success for each claim of a slot |
| Lifecycle.SecondChance | engine/src/arena.cc:91-145 | an eviction of a filled slot is preceded by a rescue of that same fill, with nothing done to the slot since |
| Lifecycle.ReadyDiesByEviction | engine/src/arena.cc:91-100 | only the collector ends the life of a readable slot |
| Lifecycle.LostClaimHadRival | engine/src/service.cc:140-158 | in every schedule, a claim that loaded a dead word fails its swap iff the word has changed, and then another thread has claimed the slot since the load |
| Lifecycle.ContestedOperation | engine/src/service.cc:203-219 | in every schedule, whatever others do between a thread's load and its swap, the swap takes iff the word is the one loaded; if not, a SetCache goes on with the word it met and everybody else gives up |
| Lifecycle.LoneOperation | engine/src/service.cc:63-219 | a thread left alone performs its operation, or leaves everything as it is |
| Lifecycle.StepsAreSwaps | engine/src/service.cc:111-158 | each atomic step changes control words by the life cycle's operations and touches no other slot |
| ClaimTime.DatedIffInTime | engine/src/arena.cc:91-102 | over every schedule, in whatever order outstanding claim times are stored, the slot ends up dead exactly when its time is zero, iff no claim or death takes while a claim time is owed and no eviction swap fails on a slot in use |
| ClaimTime.TurnTakes | engine/src/service.cc:140-153 | a turn left alone swaps the word and owes the claim time that belongs to it |
| ClaimTime.EarlyExpiryDoesNothing | engine/src/service.cc:55-80 | a claim without claim time, or not over thirty seconds old, is not expired |
| ClaimTime.LateStoreStrandsClaim | engine/src/service.cc:68-75 | an interleaving in which the zero of an expiry arrives after the next claim's time and leaves a pending slot without claim time |
| ClaimTime.FailedEvictionStrandsClaim | engine/src/arena.cc:98-102 | an interleaving in which an eviction swap fails, its zero is stored nevertheless, and a pending slot is left without claim time |
| ClaimTime.StrandedUntilFilledOrEvicted | engine/src/service.cc:55-61 | over every sequence of calls from any world, a pending slot without claim time stays so iff no SetCache has filled it and no iteration evicted it, and till then no CheckCache picks it or hands it out |
| Stragglers.SecureIffHarmless | engine/src/arena.cc:79-149 | over every schedule no readable slot is behind the tail, or bound to be left there, iff no hit changes a word the collector has loaded to evict and no SetCache swaps after the collector has dealt with its record |
| Stragglers.ScheduleKeepsInv | engine/src/arena.cc:43-186 | over every schedule records stay in order, every word carries the offset of its record, and a record that the tail has not passed is in the queue under its slot |
| Stragglers.LoneIteration | engine/src/arena.cc:49-149 | an iteration left alone skips, evicts or rescues by the slot's word and moves the tail on, or halts |
| Stragglers.LoneSetCache | engine/src/service.cc:197-219 | a SetCache left alone writes its record at the head and fills the slot iff it is pending |
| LeftBehind.HitLeavesSlotBehind | engine/src/arena.cc:91-100 | a schedule from start-up in which a hit makes the eviction swap fail, the tail moves on, and the slot stays readable behind it |
| LeftBehind.LateFillIsBehind | engine/src/service.cc:197-219 | a schedule from start-up in which a SetCache swaps after the collector has skipped its record, and the slot is readable behind the tail |
| Allocator.AloneIsAtomic | engine/src/arena.cc:153-186 | without interference the load, test and swap of a thread amount to the atomic allocation |
| Allocator.LateSwapTriesAgain | engine/src/arena.cc:178-182 | a swap that fails, for a moved head or for no reason, hands nothing out and goes on with the head it met |
| Allocator.SchedulesAreSafe | engine/src/arena.cc:153-186 | for all interleavings granted ranges are disjoint and ordered, no header straddles the border, and the span stays within the buffer plus ten bytes |
| Allocator.SpanBoundIsTight | engine/src/arena.cc:158-174 | the span of the buffer plus ten bytes is reached |
| Allocator.NoCollisionIffSpanFits | engine/src/arena.cc:164-165 | two live offsets share a byte of the buffer iff the span exceeds the buffer |
| Allocator.SpanStaysIffSwapsFit | engine/src/arena.cc:158-180 | over every schedule the span stays within the buffer all the time iff every successful swap fits with its padding counted |
| Allocator.LiveGrantsShareNoByte | engine/src/arena.cc:176-186 | in every such schedule no two records handed out and not reclaimed share a byte of the buffer |
| Allocator.PaddedTestsKeepSpanBelowSize | engine/src/arena.cc:158-174 | in every schedule whose back-pressure tests count the padding, all swaps fit and the span stays below the buffer, however stale a test is by the time of its swap |
| Allocator.ActionKeepsSpanIffFits | engine/src/arena.cc:158-180 | from a window that fits, an action leads to one that does not iff it is a successful swap whose padding did not fit |
| Registry.ShardsAreResidues | gateway/internal/proxy/registry.go:33-35 | ids share a shard iff they differ by a multiple of 256, negative ids included |
| Registry.PromiseRegistry.PioneerRegister | gateway/internal/proxy/registry.go:39-49 | on the shards, inserts exactly one entry into the single map they stand for |
| Registry.PromiseRegistry.PioneerFulfill | gateway/internal/proxy/registry.go:55-65 | sets payload and error, closes the promise and removes exactly the node's entry |
| Registry.PromiseRegistry.HerdLookup | gateway/internal/proxy/registry.go:74-83 | finds what the single map holds, or nothing |
| Herd.DeliveredIsWritten | gateway/internal/proxy/registry.go:71-93 | in every interleaving a waiter receives exactly what the pioneer of the promise it found handed over |
| Herd.WaiterKeepsItsPromise | gateway/internal/proxy/registry.go:74-93 | a waiter keeps to the promise its look-up found, whatever is registered or deleted later |
| Herd.ClosesOnce | gateway/internal/proxy/registry.go:59 | no channel is closed twice |
| Herd.ClosedIsFinal | gateway/internal/proxy/registry.go:55-59 | payload and error never change after the close |
| Herd.NothingLeaks | gateway/internal/proxy/strix.go:160-166 | once all pioneers have finished the registry is empty and every waiter can receive |
| Herd.FoundIffRegistered | gateway/internal/proxy/registry.go:74-83 | a promise is found iff its node was registered and no pioneer of that node has deleted since, and it is the latest one |
| Herd.LookUpFinds | gateway/internal/proxy/registry.go:74-92 | a look-up waits on the promise of the latest registration not deleted since, and finds nothing iff there is none |
| Herd.ReceiveDelivers | gateway/internal/proxy/registry.go:84-93 | a receive delivers what the promise's pioneer wrote, to that waiter only |
| Herd.OnlyWaitersWait | gateway/internal/proxy/registry.go:39-93 | in every reachable state registrations, look-ups, cancellations and each pioneer's next step can happen, and a receive can iff the pioneer has closed |
| Herd.OlderDeleteRemovesNewer | gateway/internal/proxy/registry.go:61-64 | an interleaving in which an older pioneer's delete hides a newer pioneer's promise |
| CosineSimilarity.CosineSimilarityAvx | engine/include/avx_math.hh:14-59 | for every dimension divisible by 32, four accumulators of eight lanes, lane split and two horizontal adds give the dot product |
| CosineSimilarity.CosineSimilarityScalar | engine/include/avx_math.hh:65-73 | the scalar loop gives the same dot product |
| CosineSimilarity.DotOfConcat | engine/include/avx_math.hh:65-73 | the score adds up over the parts of the vectors; in one dimension it is the product (`DotOfOne`) |
| CosineSimilarity.CauchySchwarz | engine/include/avx_math.hh:65-73 | the Cauchy-Schwarz inequality for the score in every dimension |
| Embedder.Encode | engine/src/embedder.cc:75-123 | returns the unit vector in the direction of the column sums, of a one-row matrix along that row, or the error that applies |
| Embedder.MeanPool | engine/src/embedder.cc:92-105 | the nested loops compute the mean of the rows |
| Embedder.ColumnSumsOfOneRow | engine/src/embedder.cc:95-100 | the column sums of a single row are that row |
| Embedder.ColumnSumsOfStack | engine/src/embedder.cc:95-100 | stacking two matrices adds their column sums |
| Embedder.Normalise | engine/src/embedder.cc:107-121 | scales to length one, and refuses exactly the vectors below the threshold, which it leaves alone |
| Embedder.UnitAlongIsUnique | engine/src/embedder.cc:117-121 | a direction has one unit vector |
| Embedder.MeanDoesNotMatter | engine/src/embedder.cc:102-105 | dividing by the sequence length does not change the normalised result |
| Embedder.ScoresAreBounded | engine/include/avx_math.hh:65-73 | two normalised vectors score between −1 and 1 |
| Embedder.ScoreOneIffEqual | engine/include/avx_math.hh:65-73 | two normalised vectors score 1 iff they are equal |

## Left out

- Runs.HitServesLastFill: is stated for runs whose collector does not run on an overshot window, because the code breaks the law otherwise (FaultyRun.HitServesForeignBytes); the same holds for Runs.RunRefines, Runs.ReadableIffFilled, Refinement.StepRefines, Orphans.OrphanStaysOrphan, Orphans.RemovalIsNeutral, Sessions.HeldIffFilled, Sessions.ClaimPrecedesFill, Sessions.HitIsTheBestStoredAnswer and Sessions.StoredPromptIsServed. Both directions are proved for the invariant (Runs.RunKeepsInv) and for the next iteration of the collector (Overshoot.CollectorFollowsIffFits); that every run which breaks the condition can be continued to a wrong hit is not.
- Collector.CollectorComesToRest: is stated for states that satisfy the invariant, so not for those after an overshoot; the same holds for Collector.CollectMakesProgress and Collector.RescueFailsIff.
- Service.SemanticService.CheckCache: other threads may change the words of the two slots that it loads again after the scan, but not the table while the scan runs, nor claim times, nor the ring while it copies.
- Service.SemanticService.SetCache: other threads may change the slot's word before its swap, but not the ring while it writes.
- Requests that CheckCache turns down before its scan: they change nothing, so sessions leave them out.
- Payload bytes under data races: the reader does not look at the word again after copying; the payload theorems are about atomic steps, and at the level of single swaps words, order, disjointness and the tail are treated, not bytes. `Straggler.dfy` takes headers as they were written and leaves leaps over padding out.
- Which prompt a fill belongs to: a pending word carries no epoch, so a late SetCache can fill a later claim; at most one fill per claim is proved.
- The separate stores to `created_at` and to the vector after a claim's swap: they are part of the atomic claim in sessions; ClaimTime.dfy has the stores of claim times as steps of their own, a late copy of the vector is not modelled.
- Bit masks as remainders: Node.dfy works on 64-bit words, ArenaModel.dfy on records with natural numbers for length and offset; that a mask of low bits is a remainder is not proved.
- Wrap-around of the 64-bit virtual offsets themselves: head and tail are unbounded, their differences wrap.
- Memory orderings weaker than sequential consistency.
- Float rounding: scores and pooling are over the reals, the thresholds 0.85 and 1e-9 are taken as decimal, and the square root is a parameter.
- The vector store as one flat float array: it is an array of vectors.
- The model session, tokenisation and tensor shapes of the embedder: its output matrix is a parameter.
- The L1 scan and the MIGRATING state: no code produces MIGRATING; the invariant says so.
- Node ids outside the table: the source does not guard against them and neither does the model.
- Headers the arena did not write, with a node id past the table or a length over the limit: what the source does with them is not modelled; the invariant excludes them.
- Sleeping, the high watermark's shorter sleep and shutdown timing: an iteration below the low watermark changes nothing.
- Locks of the registry: each locked region is one step; the wait in herdAwait is a step that is enabled once the channel is closed, or a cancellation.
- gRPC and protobuf code, the HTTP handler, forwarding, the worker pool, the exact-match cache, CLI, configuration and hardware probing: plumbing; a SetCache may follow a miss at any time or never.
