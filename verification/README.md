# Palladium core: a verified model

Palladium is a Bitcoin Core fork. This project models eleven of its self-contained
components in Dafny and proves what they promise: over every run of a protocol, every
input of a codec, every value of a number.

| component | source | modules |
|---|---|---|
| parallel check queue | `src/checkqueue.h` | `CheckQueue` |
| coins cache tower | `src/coins.cpp`, `src/coins.h`, `src/txdb.cpp` | `Coins`, `CoinsLedger`, `CoinsCache` |
| address manager | `src/addrman.cpp`, `src/addrman.h` | `AddrMan`, `AddrManOps`, `AddrManEffects`, `AddrManCollisions`, `AddrManStats`, `AddrManCheck`, `AddrManager` |
| block assembler | `src/miner.cpp`, `src/miner.h` | `Packages`, `Miner` |
| cuckoo cache | `src/cuckoocache.h` | `Cuckoo`, `CuckooCache`, `Bytes` |
| 256-bit arithmetic, compact targets, block proof | `src/arith_uint256.cpp`, `src/arith_uint256.h`, `src/chain.cpp` | `Powers`, `Limbs`, `ArithUint`, `Compact` |
| partial Merkle trees | `src/merkleblock.cpp`, `src/merkleblock.h` | `Merkle`, `MerkleProof`, `MerkleTree`, `MerkleSize` |
| block index and active chain | `src/chain.cpp`, `src/chain.h` | `Chain`, `SkipWalk` |
| compact blocks | `src/blockencodings.cpp` | `CompactBlock`, `BlockEncodings` |
| rolling Bloom filter | `src/bloom.cpp` | `RollingBloom` |
| base 58 | `src/base58.cpp` | `Base58`, `Base58Codec`, `Base58Check`, `Base58Exact` |

`Common` holds what several of them share.

Each component has two layers. The first is a definition on values, as functions, with
the theorems about it. The second, where the source changes things in place, is a class
or a method on arrays, maps and counters with the loops of the source, and its contract
equates the new state with the first layer. So the theorems hold of the imperative code.

Clocks, random draws, hash functions, the fee order and calls into validation are
parameters: a theorem holds for all of them. Integers are unbounded where the source
cannot overflow; where the width matters (limbs, unsigned tests, scaling of hashes,
compact numbers) it is written out.

`dafny verify dfyconfig.toml` checks everything.

## Main results

- The check queue is safe and live in every interleaving: every Wait has the right verdict,
  and it ends unless spurious wake-ups go on for ever (`EveryRunIsSafe`, `NoLostWakeup`,
  `EveryWaitTerminates`).
- A tower of coin caches is a stack of nested transactions on one flat map with its best
  block (`EveryRunIsNestedTransactions`).
- Every run of the address manager keeps its six indexes exact, so its self-check, whose
  loops are modelled too, always passes (`EveryRunIsConsistent`, `Check_`); who is tried,
  returned or forgotten is exact (`GoodEffect`, `MakeTriedEffect`, `AddNewEffect`,
  `AddKnownExact`), and so is which collisions evict whom (`ResolveEvicts`,
  `ResolveKeepsFresh`).
- Package selection terminates with a topological block of admissible transactions within
  its limits, and the trace of its candidates says exactly why each was refused and why it
  stopped (`AddPackageTxs`), although its running totals and fees can be too high
  (`RestartExact`, `FeesExact`).
- The cuckoo cache conserves its entries, loses a kept one only when every round finds all
  its locations kept, and never lets an epoch overshoot; an inserted element is found unless
  it bounces (`InsertConserves`, `EveryRunIsSound`, `InsertFound`).
- Limb loops compute arithmetic modulo 2^256, compact numbers round-trip up to their
  mantissa and the other way if and only if they are normalised, and the block proof is
  floor(2^256 / (target + 1)) (`Divide`, `CompactRoundTrip`, `ReEncode`, `GetBlockProof`).
- A partial Merkle tree can only prove what is in the block and proves all of it
  (`MatchesAreGenuine`, `MatchesAreComplete`); what is accepted is exactly the cuts of the
  tree, written out without a hash or a byte left over (`ProofAccepted`, `AcceptedIsProof`).
- Skip pointers find the ancestor that parent steps find, from a height of b bits in at
  most b * b steps (`WalkReaches`, `StepsBound`); a locator is logarithmic, with its heights
  in closed form (`LocatorClosed`, `LocatorLength`).
- A compact block is rebuilt exactly (`Relay`), and which places the searches fill is exact
  (`SearchExact`).
- The rolling filter remembers the last nElements keys (`RecentKeysRemembered`), and contains
  exactly what the last two to three generations wrote (`RemembersExact`).
- Base 58 and Base58Check round-trip, in buffers that always suffice (`DecodeEncode`,
  `EncodeRoom`, `DecodeRoom`, `CheckRoundTrip`), and accept encodings with white space around
  them and nothing else (`DecodeExact`, `CheckExact`).

## Where code and comment disagree

The code is followed. Each promise or expectation that it breaks has a lemma with an input
and a theorem that says exactly when it is kept.

| promise | broken by | kept exactly when |
|---|---|---|
| at most 2 * N - 1 flag bits for N hashes (`src/merkleblock.h:47`) | `BitPromiseFails` | `BitCount`: no visited node has a single child |
| at most 10 + ceil(32.25 * N) bytes (`src/merkleblock.h:31-35`) | `GuaranteeFails` | `GuaranteeExact`: few enough such nodes; always up to 252 hashes |
| the first displacement uses the first location (`src/cuckoocache.h:419-421`) | `FirstLocationPromiseFails` | `FirstDisplacement`: the first two locations are the same |
| flags work for every size (`src/cuckoocache.h:55-59`) | `FlagsPromiseFails` | `FlagsFit`: the size is at most 2^32 - 8 |
| totals on record are those of the remaining package (`src/miner.cpp:235-260`) | `RestartTooHigh` | `RestartExact`: no ancestor with a cost entered the block before |
| fees on record are those of the remaining package (`src/miner.h:111-123`) | `FeesTooHigh` | `FeesExact`: the priority deltas of the ancestors in the block but the first cancel out |
| SpendCoin says whether there was a coin (`src/coins.cpp:100-114`) | `SpendTwice` | `SpendResultExact`: the cache holds no spent entry |
| the usage counter is the sum over the entries (`src/coins.cpp:68-87`) | `ThrowLowersUsage` | `UsageAfterAddExact`: the call returned, or the coin in the way has a short script |
| Flush hands on the best block (`src/coins.cpp:205-210`) | `CommitForgetsBest` | `CommitBestExact`: the cache was told or asked for one, or there is nothing to lose |

## Model

| member | source | states |
|---|---|---|
| CheckQueue.EveryRunIsSafe | src/checkqueue.h:66-157 | In every interleaving of one master and any number of workers, with spurious wake-ups: nTodo is the queue length plus all uncommitted batches, nIdle and nTotal count the parked and the joined threads, no check is lost or run twice, and every finished Wait returned true exactly when all checks added since the previous Wait ran and passed |
| CheckQueue.NoLostWakeup | src/checkqueue.h:75-100 | In every reachable state in which the master is parked without a pending notification the queue is empty, nTodo is positive and some worker still holds a non-empty uncommitted batch |
| CheckQueue.LastCommitNotifies | src/checkqueue.h:77-86 | The commit that brings nTodo to zero wakes a parked master |
| CheckQueue.WaitIsNeverStuck | src/checkqueue.h:88-100 | From every state of the invariant in which the master is inside Wait, some thread of the pool can take a step |
| CheckQueue.WaitTerminates | src/checkqueue.h:66-123 | In a run of pool steps with any number of spurious wake-ups between them, the other steps are no more than a potential of the first state plus the wake-ups; and when no thread of the pool can take a step of its own the master has returned |
| CheckQueue.EveryWaitTerminates | src/checkqueue.h:139-142 | The same from every reachable state: a Wait with finitely many spurious wake-ups ends, and none deadlocks |
| CheckQueue.NextKeeps | src/checkqueue.h:66-157 | Every step of every thread keeps the whole invariant (counters, conservation of checks, exact verdict, no lost wake-up) |
| CheckQueue.RunKeeps | src/checkqueue.h:66-157 | So does every finite run |
| CheckQueue.InternalPays | src/checkqueue.h:73-122 | Every step a thread of the pool takes on its own lowers the potential; together with WaitIsNeverStuck this is liveness |
| CheckQueue.PoolStepPays | src/checkqueue.h:66-123 | A step of the pool lowers the potential, and a spurious wake-up raises it by one |
| CheckQueue.DivisorIsSum | src/checkqueue.h:106 | In every state of the invariant nTotal + nIdle + 1 is positive, so the batch-size division is defined |
| CheckQueue.BatchSize | src/checkqueue.h:106 | A batch takes at least one job, at most all that are queued and at most nBatchSize unless that is zero; if neither bound decides, it is the exact share: the queue divided by nTotal + nIdle + 1 |
| CheckQueue.SharedQueue.Add | src/checkqueue.h:145-157 | Appends the jobs to the queue and raises nTodo by their number; notifies all workers if and only if there is more than one job and one worker if and only if there is exactly one; this is the Add step of the protocol |
| CheckQueue.SharedQueue.Clean | src/checkqueue.h:77-86 | The clean-up after a batch is the first half of the commit step, field by field, and notifies exactly when that step wakes the master |
| CheckQueue.SharedQueue.TakeBatch | src/checkqueue.h:106-115 | The loop that swaps jobs off the back of the queue leaves the front of the queue and a batch of the rest, as the protocol step does |
| CheckQueue.SharedQueue.Head | src/checkqueue.h:88-115 | From the head of the inner loop to the end of the critical section: returns, waits or takes a batch exactly as the protocol step does, with the verdict recorded for the session |
| CheckQueue.SharedQueue.Execute | src/checkqueue.h:118-120 | Running a batch is a run of protocol steps that leaves the thread at the end of its batch, and its verdict is true exactly when it started true and every check passed |
| CoinsLedger.EveryRunIsNestedTransactions | src/coins.cpp:42-219 | A tower of caches of any height over any database, driven by reads, AddCoin, SpendCoin, Uncache, GetBestBlock at any level, SetBestBlock, Flush at any level, pushing and dropping caches, shows level by level, coins and best block, what nested transactions on one flat coin map show, and never reaches the "FRESH flag misapplied" throw |
| CoinsLedger.RunFromScratch | src/coins.cpp:42-219 | The same starting from an empty database |
| CoinsLedger.ReadBestAgrees | src/coins.cpp:137-141 | Asking a level of the tower for the best block is asking that level of the nested transactions, and leaves the tower valid and all coins as they were |
| CoinsLedger.PinKeepsBest | src/coins.cpp:137-141 | Asking any level for the best block changes the best block that no level shows |
| CoinsLedger.CommitBestExact | src/coins.cpp:137-145 | Flushing a cache into a cache makes the base show the best block the cache showed if and only if the cache was told or asked for one, or the base shows what its own base shows |
| CoinsLedger.CommitForgetsBest | src/coins.cpp:205-210 | A base that was told a best block shows an older one again after the flush of a cache that was never told or asked for one |
| CoinsLedger.StepAgrees | src/coins.cpp:42-219 | One operation at any level of the tower keeps the agreement |
| CoinsLedger.FlushAtCommits | src/coins.cpp:147-210 | Flushing a cache in the middle of the tower commits exactly that level and leaves what the top shows alone |
| CoinsLedger.Rebase | src/coins.cpp:42-57 | A cache stays valid and shows the same when its base is replaced by one that shows the same |
| Coins.FetchKeeps | src/coins.cpp:42-57 | Reading through the tower changes what no level shows, and leaves the coin in the cache that was asked |
| Coins.UncacheKeeps | src/coins.cpp:212-219 | Uncache changes what no level shows |
| Coins.SpendKeeps | src/coins.cpp:100-114 | After SpendCoin the coin is gone, every other coin and every level below shows what it showed; stated on the view, because the result is also true for an entry that is already spent |
| Coins.SpendResultExact | src/coins.cpp:100-114 | On a valid cache the result is true if and only if the view has the coin or the cache holds an entry; so it tells whether the view had the coin if and only if the cache holds no spent entry |
| Coins.SpendTwice | src/coins.cpp:100-114 | A coin spent twice: the second call also returns true, although the view has no coin |
| Coins.AddCoinExact | src/coins.cpp:68-87 | AddCoin returns and leaves a valid cache if and only if overwriting is allowed or the view has no coin there |
| Coins.AddCoinShows | src/coins.cpp:68-87 | When it returns, the view has the coin and nothing else changed; an unspendable output changes nothing |
| Coins.UsageAfterAddExact | src/coins.cpp:68-87 | The usage counter after AddCoin is the sum over the entries if the call returned; if it threw, if and only if the coin in the way has a script of at most 28 bytes |
| Coins.ThrowLowersUsage | src/coins.cpp:68-87 | A coin with a script of 29 bytes in the way: AddCoin throws and leaves the counter 48 too low |
| Coins.FlushCommits | src/coins.cpp:205-210 | On a valid cache Flush fails if and only if the base is the database and the best block is null; otherwise it makes the base show what the cache showed, empties the cache and hands on the best block |
| Coins.MergeEntries | src/coins.cpp:147-203 | For every combination of parent and child flags: no misapplied FRESH, the merged entry is consistent with the base, and the merged view is the child over the parent |
| Coins.MergeOne | src/coins.cpp:147-203 | Merging entry by entry in any order gives the same map |
| Coins.MergeDatabaseOne | src/txdb.cpp:83-142 | The same for the batch that reaches the database |
| Coins.UsageRemove | src/coins.cpp:38-40 | The usage of a cache is the sum over its entries, whichever is taken out first |
| Coins.UsagePut | src/coins.cpp:68-87 | Storing an entry changes the usage by exactly the difference of the two coins |
| CoinsCache.CoinsViewCache.OnDatabase | src/coins.cpp:36 | A new cache over the database shows what the database holds |
| CoinsCache.CoinsViewCache.OnCache | src/coins.cpp:36 | A new cache over a cache shows what that cache shows |
| CoinsCache.CoinsViewCache.FetchCoin | src/coins.cpp:42-57 | The linked caches below are read and filled as Fetch says |
| CoinsCache.CoinsViewCache.BaseGetCoin | src/coins.cpp:25 | Asking the base returns what the base shows and does not touch the asking cache |
| CoinsCache.CoinsViewCache.GetCoin | src/coins.cpp:59-66 | Returns a coin exactly when the view has an unspent one, and that one |
| CoinsCache.CoinsViewCache.HaveCoin | src/coins.cpp:127-130 | True exactly when the view has an unspent coin |
| CoinsCache.CoinsViewCache.GetBestBlock | src/coins.cpp:137-141 | Returns the best block the view shows and fixes it in the caches it asked |
| CoinsCache.CoinsViewCache.SetBestBlock | src/coins.cpp:143-145 | Sets the best block of this cache and of nothing else; coins and usage stay |
| CoinsCache.CoinsViewCache.AddCoin | src/coins.cpp:68-87 | Throws exactly when AddCoin of the tower does and then leaves the map alone; otherwise the tower is as specified; the usage counter is as specified in both cases |
| CoinsCache.CoinsViewCache.SpendCoin | src/coins.cpp:100-114 | The tower is as specified, the result is that of SpendResultExact, and a coin the view had is handed out |
| CoinsCache.CoinsViewCache.Uncache | src/coins.cpp:212-219 | The entry is gone if and only if it was neither dirty nor fresh, every other stays, and the usage is as specified |
| CoinsCache.CoinsViewCache.BatchWrite | src/coins.cpp:147-203 | Throws exactly when some entry has a misapplied FRESH flag; otherwise the map is the merge and the usage moved by the difference of the two sums |
| CoinsCache.CoinsViewCache.WriteOne | src/coins.cpp:149-199 | The same for one entry: throw, insert, erase or overwrite |
| CoinsCache.CoinsViewCache.Flush | src/coins.cpp:205-210 | The tower after Flush, in place, through either kind of base |
| CoinsCache.CoinsDatabase.BatchWrite | src/txdb.cpp:83-142 | Fails exactly for a null best block and then writes nothing; otherwise the loop over the dirty entries leaves the merged coin map and the new best block |
| CoinsCache.AddCoins | src/coins.cpp:89-98 | On a valid cache, adding the outputs of a transaction (checked, of a coinbase, or where the view has none) does not throw, leaves at every spendable output a coin with its value and script and the height and kind of the transaction, and changes nothing else |
| CoinsCache.AddOutput | src/coins.cpp:92-97 | The same for one output |
| AddrManOps.EveryRunIsConsistent | src/addrman.cpp:87-625 | After any sequence of Add_, Good_, Attempt_, Connected_, SetServices_, GetAddr_, ResolveCollisions_ and SelectTriedCollision_ on a fresh manager, for any hash and any random draws, all six indexes agree and every pending collision that still exists has an occupied tried slot |
| AddrManCheck.CheckAlwaysPasses | src/addrman.cpp:405-479 | After every such run every test of Check_ passes |
| AddrManCheck.ConsistentPasses | src/addrman.cpp:405-479 | The invariant implies every test of Check_, error code by error code, including the one that counts vRandom |
| AddrManCheck.OrderCounts | src/addrman.cpp:410-411 | The random order is as long as there are tried and untried entries |
| AddrManCheck.TriedScan | src/addrman.cpp:444-456 | The scan of the tried table finds each tried id once, in its own slot, and leaves none over |
| AddrManCheck.NewScan | src/addrman.cpp:458-469 | The scan of the new table finds each untried id as often as its reference count says |
| AddrManCheck.Check_ | src/addrman.cpp:405-479 | The three loops return 0 if and only if every test passes and the key is not null, on any state of the tables; on a consistent manager nothing changes |
| AddrManCheck.CheckEntry | src/addrman.cpp:416-434 | Returns 0 if and only if the entry passes its tests; looking up a missing address changes no look-up |
| AddrManCheck.CheckEntries | src/addrman.cpp:413-437 | Returns 0 if and only if all entries pass, and then sorts them into tried ids and reference counts |
| AddrManCheck.ScanTried | src/addrman.cpp:444-456 | No error and nothing left over if and only if the tried table holds each tried id once and in its own slot |
| AddrManCheck.ScanNew | src/addrman.cpp:458-469 | No error and nothing left over if and only if the new table holds each untried id at its positions and as often as its reference count |
| AddrManOps.NothingIsUndone | src/addrman.cpp:148-194 | Between any two moments of a run a filled tried slot stays filled, an id in use at both means the same address, and new ids are larger than all old ones |
| AddrManOps.AlwaysInSomeBucket | src/addrman.cpp:225-240 | An untried entry is in some new bucket, so the bail-out of Good_ is never taken |
| AddrManOps.SelectReadsTried | src/addrman.cpp:600-625 | A pending collision whose entry exists points at an existing tried entry in the right slot |
| AddrManOps.GetAddrExact | src/addrman.cpp:482-501 | GetAddr_ returns at most 2500 and at most 23 percent of the entries, distinct and not terrible, and if it returns fewer than it wanted it returns all that are not terrible; it only reorders |
| AddrManOps.GoodConsistent | src/addrman.cpp:196-260 | Good_ keeps the invariant and undoes nothing |
| AddrManOps.PromoteConsistent | src/addrman.cpp:246-259 | So does moving to the tried table or noting a collision |
| AddrManOps.AddConsistent | src/addrman.cpp:262-333 | Add_ keeps the invariant and undoes nothing |
| AddrManOps.PlaceSound | src/addrman.cpp:311-331 | Giving an entry a slot, evicting or dropping, restores the reference counts |
| AddrManOps.AttemptConsistent | src/addrman.cpp:335-355 | Attempt_ keeps the invariant |
| AddrManOps.ConnectedConsistent | src/addrman.cpp:503-539 | Connected_ and SetServices_ keep the invariant |
| AddrManOps.RunConsistent | src/addrman.cpp:87-625 | Every run from a consistent state stays consistent and undoes nothing |
| AddrManOps.GroupReachesFewTried | src/addrman.cpp:12-20 | All addresses of one network group share at most 8 tried buckets, whatever the hash |
| AddrManOps.GroupReachesFewNew | src/addrman.cpp:22-31 | All announcements from one source group reach at most 64 new buckets |
| AddrManEffects.MakeTriedEffect | src/addrman.cpp:148-194 | MakeTried leaves the entry tried and otherwise as it was, the old occupant of its slot back in the new table, every other tried entry as it was, and loses at most the one entry whose last reference was in the slot that had to be cleared |
| AddrManEffects.DemoteReturns | src/addrman.cpp:166-188 | An evicted tried address is not forgotten: it is in the new table at the slot of its own source, once |
| AddrManEffects.ClearNewLoses | src/addrman.cpp:133-146 | Clearing a slot forgets only an untried entry with exactly one reference, the one in that slot |
| AddrManEffects.GoodEffect | src/addrman.cpp:196-260 | A confirmed address has fresh statistics and is tried afterwards, if and only if it was, or eviction needs no test, or its slot was free; otherwise nothing moves and the collision is noted while there is room |
| AddrManEffects.GoodKeepsTried | src/addrman.cpp:196-260 | Good_ forgets no tried address |
| AddrManEffects.AddNewEffect | src/addrman.cpp:262-333 | An unknown routable address is kept if and only if its source slot is free or held by a terrible entry or by one with other slots; otherwise the whole state is as before but for the id counter, which is one higher |
| AddrManEffects.DeleteAdmitted | src/addrman.cpp:119-131 | Creating an entry and deleting it again changes nothing but the id counter |
| AddrManEffects.AddKnownEffect | src/addrman.cpp:262-333 | Announcing a known address keeps it, changes no tried slot, adds at most one reference and forgets at most one other untried entry |
| AddrManEffects.PlaceFresh | src/addrman.cpp:311-331 | An entry without references survives exactly when there is room; otherwise it is deleted and nothing else happens |
| AddrManEffects.ResolveDecides | src/addrman.cpp:541-598 | A judged collision is pending afterwards exactly when there is no verdict yet; a positive verdict leaves the entry tried, any other moves nothing |
| AddrMan.FindExact | src/addrman.cpp:74-85 | Find returns the one entry of a network address, and -1 exactly when there is none |
| AddrMan.CreateSound | src/addrman.cpp:87-97 | Create keeps all indexes but for the missing reference and the counter, which its caller supplies |
| AddrMan.SwapSound | src/addrman.cpp:99-117 | SwapRandom keeps all indexes and exchanges two places of the random order |
| AddrMan.DeleteSound | src/addrman.cpp:119-131 | Delete of an unreferenced untried entry keeps all indexes and every other entry |
| AddrMan.ClearNewSound | src/addrman.cpp:133-146 | ClearNew keeps all indexes and every entry but the occupant |
| AddrMan.MakeTriedSound | src/addrman.cpp:148-194 | MakeTried keeps all indexes, fills the slot of the entry and empties none; its asserts hold |
| AddrMan.DemoteSound | src/addrman.cpp:166-188 | Evicting into the new table keeps all indexes |
| AddrMan.UnreferSound | src/addrman.cpp:133-146 | The occupant of a new slot exists, is untried and has a positive reference count, so the decrement is safe |
| AddrManager.Manager.Find | src/addrman.cpp:74-85 | The class finds what Find of the tables finds |
| AddrManager.Manager.Create | src/addrman.cpp:87-97 | The class state after Create is the specified one |
| AddrManager.Manager.SwapRandom | src/addrman.cpp:99-117 | The class state after SwapRandom is the specified one |
| AddrManager.Manager.Delete | src/addrman.cpp:119-131 | The class state after Delete is the specified one |
| AddrManager.Manager.ClearNew | src/addrman.cpp:133-146 | The class state after ClearNew is the specified one and the slot is empty |
| AddrManager.Manager.RemoveFromNew | src/addrman.cpp:150-157 | The loop over all 1024 buckets takes an entry out of every slot it has |
| AddrManager.Manager.MakeSpace | src/addrman.cpp:166-188 | Evicting the occupant of a tried slot, in place |
| AddrManager.Manager.MakeTried | src/addrman.cpp:148-194 | The class state after MakeTried is the specified one |
| AddrManager.Manager.FindBucket | src/addrman.cpp:225-235 | The search from a random bucket on finds a bucket that holds the entry exactly when there is one |
| AddrManager.Manager.Good_ | src/addrman.cpp:196-260 | Good_ on the arrays keeps the invariant and computes the specified state, whatever bucket the search starts from |
| AddrManager.Manager.PromoteOrPend | src/addrman.cpp:242-259 | Moving to the tried table or noting the collision, in place |
| AddrManager.Manager.Add_ | src/addrman.cpp:262-333 | Add_ on the arrays keeps the invariant, computes the specified state and returns whether the address was new |
| AddrManager.Manager.Unlucky | src/addrman.cpp:286-303 | The stochastic test with its doubling loop |
| AddrManager.Manager.PlaceInNew | src/addrman.cpp:311-331 | The insertion into the new table, in place |
| AddrManager.Manager.Attempt_ | src/addrman.cpp:335-355 | Attempt_ in place |
| AddrManager.Manager.Connected_ | src/addrman.cpp:503-521 | Connected_ in place |
| AddrManager.Manager.SetServices_ | src/addrman.cpp:523-539 | SetServices_ in place |
| AddrManager.Manager.GetAddr_ | src/addrman.cpp:482-501 | The shuffling loop in place returns the addresses of the entries of GetAddrExact, in order |
| AddrManager.Manager.Gather | src/addrman.cpp:489-500 | The loop, in place, from any state |
| AddrManager.Manager.ResolveCollision | src/addrman.cpp:544-596 | One pending collision judged and carried out in place |
| AddrManager.Manager.ResolveCollisions_ | src/addrman.cpp:541-598 | The loop over the pending set, in increasing order of id, in place while Good_ changes the tables |
| AddrManager.Manager.SelectTriedCollision_ | src/addrman.cpp:600-625 | Returns an existing tried entry of the slot the pending address wants, or erases a pending id whose entry is gone |
| AddrManager.StripEnds | src/addrman.cpp:150-157 | The bucket-by-bucket loop removes exactly the slots that hold the entry |
| Miner.BlockAssembler.AddPackageTxs | src/miner.cpp:298-425 | Package selection terminates and leaves a valid block: each transaction once and after all its ancestors, every new one admissible, weight and sigops within the limits, weight, sigops, count and fees equal to the sums over the block. Every candidate is refused for one reason only: its fees are too low, else it is too large, else something it needs is not admissible. It stops early if and only if a candidate had too low fees, or more than 1000 in a row did not fit while the block is within 4000 of its limit; otherwise every transaction left out was a refused candidate, and a pool that fits is all in the block |
| Miner.BlockAssembler.TryPackage | src/miner.cpp:366-423 | The package does not fit if and only if its recorded size and sigops pass a limit, is not final if and only if it fits and some transaction left in it is not admissible, and is added whole otherwise; only admissible transactions enter and the block stays valid |
| Miner.BlockAssembler.Evaluate | src/miner.cpp:327-423 | One round of the loop refuses or adds its candidate for exactly the reasons of the code, keeps the selection invariant and lowers the termination measure |
| Miner.BlockAssembler.Choose | src/miner.cpp:327-364 | Whichever of the two candidates scores better is outside the block and its totals never undercount its package |
| Miner.BlockAssembler.Reject | src/miner.cpp:371-404 | A failed candidate leaves the modified set and is remembered |
| Miner.BlockAssembler.AddPackage | src/miner.cpp:407-423 | Adding a package that fits keeps the block valid and the modified totals tracked |
| Miner.BlockAssembler.AddSorted | src/miner.cpp:414-418 | Adding the sorted entries one by one never lists a transaction before an ancestor |
| Miner.BlockAssembler.AddToBlock | src/miner.cpp:216-233 | Appending one transaction keeps weight, count, sigops and fees equal to the sums over the block |
| Miner.BlockAssembler.UpdatePackagesForAdded | src/miner.cpp:235-260 | The nested loops subtract each added ancestor once from every descendant outside the block |
| Miner.BlockAssembler.PatchDescendants | src/miner.cpp:243-257 | The inner loop over the descendants of one transaction |
| Miner.BlockAssembler.SortForBlock | src/miner.cpp:277-286 | The sorted list has the elements of the package, each once, in order of ancestor count, and of hash for equal counts |
| Miner.BlockAssembler.TestPackage | src/miner.cpp:191-199 | The test with its unsigned arithmetic is the mathematical one whenever nothing wraps, which WellFormed pools guarantee |
| Miner.BlockAssembler.TestPackageTransactions | src/miner.cpp:205-214 | True exactly when every transaction of the package is admissible |
| Miner.BlockAssembler.OnlyUnconfirmed | src/miner.cpp:178-189 | What is in the block already is removed from the package |
| Miner.BlockAssembler.ResetBlock | src/miner.cpp:74-86 | An empty block with its reserved weight and sigops is valid |
| Packages.SortedIsTopological | src/miner.cpp:277-286 | Sorting a package by ancestor count puts every transaction after all its ancestors |
| Packages.AncestorFirst | src/miner.h:82-89 | An ancestor has a smaller ancestor count |
| Packages.UpdateTracks | src/miner.cpp:235-260 | Patching for one added transaction keeps every total at or above the truth, and size, sigops and fees as exact as stated for entries that never failed |
| Packages.EntryPatched | src/miner.h:111-123 | The same for one entry |
| Packages.EraseTracks | src/miner.cpp:414-418 | Erasing an added entry keeps the totals tracked |
| Packages.FailTracks | src/miner.cpp:372-378 | So does dropping a failed one |
| Packages.CandidateTally | src/miner.cpp:357-364 | The totals of either kind of candidate are between the remaining package and the full one |
| Packages.RestartOvercounts | src/miner.cpp:248-253 | An entry inserted again starts from its full totals: size and sigops exceed the remaining package by exactly the ancestors that were already in the block |
| Packages.RestartExact | src/miner.cpp:248-253 | An entry inserted again starts too high if and only if one of its ancestors that entered the block before has a positive size (or sigop count), and exact if and only if none has |
| Packages.RestartTooHigh | src/miner.cpp:248-253 | A chain of three transactions: the first is added, the third fails, the second is added, and the third is taken for 200 bytes with 100 left to add |
| Packages.TotalsFit | src/miner.cpp:357-364 | No total is negative or above the sum over the pool, so nothing wraps |
| Packages.PackageCost | src/miner.cpp:191-199 | With weight at most four times size, adding the remaining package costs at most what TestPackage charged |
| Packages.FitsAll | src/miner.cpp:191-199 | In a pool that fits as a whole every remaining package fits |
| Packages.ListedAppend | src/miner.cpp:216-233 | Appending a transaction whose ancestors are listed keeps the list topological |
| Packages.ListedClosed | src/miner.cpp:216-233 | A topological list is closed under ancestors |
| Cuckoo.EveryRunIsSound | src/cuckoocache.h:288-479 | After any run of insert and contains the live entries of the epoch plus the heuristic counter are at most epoch_size + max(1, epoch_size / 16), and every kept entry can be found |
| Cuckoo.InsertConserves | src/cuckoocache.h:392-440 | Inserting an absent element keeps the multiset of (element, epoch, collectable) slots but for the new one and exactly one lost one: a collectable one of the table, or, if and only if each round found its eight locations kept, what was in hand when the depth ran out |
| Cuckoo.RoundsConserve | src/cuckoocache.h:406-439 | Every bounded chain of displacements conserves table and hand |
| Cuckoo.RoundsLose | src/cuckoocache.h:406-439 | The same of every bounded chain of displacements |
| Cuckoo.FirstDisplacement | src/cuckoocache.h:416-430 | The first displacement uses the second location, so it uses the first one if and only if the two are the same |
| Cuckoo.FirstLocationPromiseFails | src/cuckoocache.h:419-421 | A table of two slots in which it does not use the first location |
| Cuckoo.DisplaceConserves | src/cuckoocache.h:430-438 | One displacement conserves table and hand |
| Cuckoo.SettleConserves | src/cuckoocache.h:408-415 | Settling in a free slot loses exactly its old content |
| Cuckoo.InsertPlaced | src/cuckoocache.h:392-440 | Insert keeps every kept element at one of its eight places, and no kept element twice |
| Cuckoo.RoundsPlaced | src/cuckoocache.h:406-439 | So does the displacement loop |
| Cuckoo.ErasePlaced | src/cuckoocache.h:469-479 | So does marking for collection |
| Cuckoo.ContainsExact | src/cuckoocache.h:469-479 | contains finds every kept element and only elements of the table |
| Cuckoo.EraseIsDeferred | src/cuckoocache.h:469-479 | Erasing changes the answer of no later contains |
| Cuckoo.InsertLive | src/cuckoocache.h:392-440 | Insert raises the number of live entries by at most one, erasing does not raise it |
| Cuckoo.RoundsLive | src/cuckoocache.h:406-439 | Displacing raises the number of live entries by at most the element in hand |
| Cuckoo.EpochCheckPays | src/cuckoocache.h:288-320 | After epoch_check there is room for one more live entry within the bound, by counting or by starting a new epoch |
| Cuckoo.AgeKeeps | src/cuckoocache.h:304-310 | A new epoch has no live entries and every kept element is where it was |
| Cuckoo.ScaleFits | src/cuckoocache.h:242-252 | The multiply-and-shift scaling of a 32-bit hash is always inside the table |
| CuckooCache.PackedFlags.BitSet | src/cuckoocache.h:90-93 | Setting one bit of a byte array changes that flag only |
| CuckooCache.PackedFlags.BitUnset | src/cuckoocache.h:101-104 | Clearing one bit changes that flag only |
| CuckooCache.PackedFlags.BitIsSet | src/cuckoocache.h:111-114 | Reading a bit returns that flag |
| CuckooCache.PackedFlags.constructor | src/cuckoocache.h:60-67 | All flags start set, and the flags work for every position if and only if the size is at most 2^32 - 8 |
| CuckooCache.FlagsFit | src/cuckoocache.h:60-63 | The bytes allocated with the 32-bit rounding hold all flags if and only if the size is at most 2^32 - 8 |
| CuckooCache.FlagsPromiseFails | src/cuckoocache.h:55-63 | For the first size that wraps, 2^32 - 7, no byte is allocated |
| CuckooCache.Cache.constructor | src/cuckoocache.h:339-352 | setup makes a table of at least two slots, all collectable, with the epoch size and the counter set from its size; valid if and only if its size is at most 2^32 - 8 |
| CuckooCache.Cache.CheckEpoch | src/cuckoocache.h:288-320 | The counting and the ageing loops compute EpochCheck |
| CuckooCache.Cache.Insert | src/cuckoocache.h:392-440 | insert on the arrays and flags runs epoch_check and then the specified insertion; the new element is in the table, recent and kept, unless the rounds ran out with it in hand |
| CuckooCache.Cache.InsertNew | src/cuckoocache.h:395-439 | The bounded loop ends in the state of the recursive definition |
| CuckooCache.Cache.Round | src/cuckoocache.h:408-438 | One round settles or displaces |
| CuckooCache.Cache.Contains | src/cuckoocache.h:469-479 | contains on the arrays is true if and only if one of the eight locations holds the element; with erase it sets the collection flag of one such location and changes nothing else |
| ArithUint.BaseUint.Add | src/arith_uint256.h:132-142 | The limbs afterwards hold addition modulo 2^(32*width) |
| ArithUint.BaseUint.Complement | src/arith_uint256.h:66-72 | The limbs afterwards hold the complement |
| ArithUint.BaseUint.Negate | src/arith_uint256.h:74-81 | The limbs afterwards hold negation modulo 2^(32*width) |
| ArithUint.BaseUint.Subtract | src/arith_uint256.h:144-148 | The limbs afterwards hold subtraction modulo 2^(32*width) |
| ArithUint.BaseUint.Increment | src/arith_uint256.h:170-177 | The limbs afterwards hold adding one modulo 2^(32*width), by a carry loop |
| ArithUint.BaseUint.Decrement | src/arith_uint256.h:187-194 | The limbs afterwards hold subtracting one modulo 2^(32*width), by a borrow loop |
| ArithUint.BaseUint.Assign | src/arith_uint256.h:85-92 | The limbs afterwards hold a 64-bit word |
| ArithUint.BaseUint.MultiplyWord | src/arith_uint256.cpp:54-64 | The limbs afterwards hold multiplication by a 32-bit word modulo 2^(32*width) |
| ArithUint.BaseUint.Multiply | src/arith_uint256.cpp:66-80 | The limbs afterwards hold multiplication modulo 2^(32*width), by the truncated schoolbook loops, with no 64-bit overflow |
| ArithUint.BaseUint.ShiftLeft | src/arith_uint256.cpp:20-35 | The limbs afterwards hold multiplication by 2^shift modulo 2^(32*width), for every shift |
| ArithUint.BaseUint.ShiftRight | src/arith_uint256.cpp:37-52 | The limbs afterwards hold division by 2^shift, for every shift |
| ArithUint.BaseUint.Divide | src/arith_uint256.cpp:82-106 | Long division by shift and subtract leaves the quotient, and fails exactly for a zero divisor |
| ArithUint.BaseUint.DivideBit | src/arith_uint256.cpp:96-103 | One round keeps quotient, remainder and aligned divisor in step |
| ArithUint.BaseUint.CompareTo | src/arith_uint256.cpp:108-118 | The sign of the difference of the two numbers |
| ArithUint.BaseUint.EqualTo | src/arith_uint256.cpp:120-132 | True exactly when the number is the 64-bit word |
| ArithUint.BaseUint.Bits | src/arith_uint256.cpp:170-183 | The position of the highest set bit: 2^(n-1) <= number < 2^n |
| ArithUint.BaseUint.Low64 | src/arith_uint256.h:242-246 | The number modulo 2^64 |
| ArithUint.BaseUint.AddRow | src/arith_uint256.cpp:70-77 | One row of the schoolbook product with its carry |
| Limbs.LeftValue | src/arith_uint256.cpp:20-35 | Limbs shifted left limb by limb, with carried bits, hold the shifted number modulo 2^(32*width) |
| Limbs.RightValue | src/arith_uint256.cpp:37-52 | Limbs shifted right hold the quotient |
| Limbs.SetBitValue | src/arith_uint256.cpp:99 | Setting a bit below the lowest one set adds its power of two |
| Limbs.ProductFits | src/arith_uint256.cpp:54-80 | carry + limb + product of two limbs fits in 64 bits |
| Limbs.ValInjective | src/arith_uint256.cpp:108-118 | Two limb arrays of the same width with the same value are equal |
| Compact.SetCompact | src/arith_uint256.cpp:203-221 | The number is mantissa * 256^(size-3) modulo 2^256, the overflow flag is set exactly when that reaches 2^256, the sign flag exactly for a negative non-zero number |
| Compact.OverflowExact | src/arith_uint256.cpp:216-219 | The three-way test on size and mantissa is true exactly when the number reaches 2^256 |
| Compact.GetCompact | src/arith_uint256.cpp:223-244 | The compact form holds the leading bytes of the number, with a full mantissa unless it is zero, and the sign bit is set exactly for a negative non-zero mantissa |
| Compact.Mantissa | src/arith_uint256.cpp:225-240 | Size and mantissa after dropping a byte when the sign bit would be set |
| Compact.CompactRoundTrip | src/arith_uint256.cpp:203-244 | Decoding what was encoded gives a number below 2^256 that is at most the original and short of it by at most one part in 2^15, equal for three bytes or fewer, and encodes to the same |
| Compact.EncodingUnique | src/arith_uint256.cpp:223-244 | A number has only one encoding with a full mantissa |
| Compact.ReEncode | src/arith_uint256.cpp:203-244 | Decoding a compact form and encoding the number again gives the form back, sign included, if and only if the form is normalised: zero, or a full mantissa without bits that a small size drops |
| Compact.ReEncoded | src/arith_uint256.cpp:203-244 | The same of any encoding of the number |
| Compact.NormalisedEncodes | src/arith_uint256.cpp:203-244 | A form other than zero encodes its own number with a full mantissa if and only if it is normalised |
| Compact.GetBlockProof | src/chain.cpp:122-135 | floor(2^256 / (target + 1)) for every accepted non-zero target, zero for a negative, overflowing or zero one, without ever holding 2^256 |
| Compact.ProofIdentity | src/chain.cpp:130-134 | floor(m / (t + 1)) is floor((m - 1 - t) / (t + 1)) + 1, and below m |
| Compact.TargetNotMax | src/chain.cpp:134 | No compact number is 2^256 - 1, so target + 1 does not wrap |
| Compact.Work | src/chain.cpp:130-134 | The limb computation of the proof for any target between 0 and 2^256 - 1 |
| Merkle.MatchesAreGenuine | src/merkleblock.cpp:131-162 | For any bits and hashes from a peer: if extraction yields the true root, every extracted (index, hash) is the transaction id at that index, in increasing order |
| Merkle.ExtractSound | src/merkleblock.cpp:77-113 | The same for every subtree |
| Merkle.MatchesAreComplete | src/merkleblock.cpp:59-162 | For distinct transaction ids, any match mask and any zero padding of the bits: extraction succeeds with the true root and exactly the matched positions in order |
| Merkle.ExtractBuilt | src/merkleblock.cpp:59-113 | Reading what was built, at any offset of longer lists, gives the hash, the matches and the numbers of bits and hashes of that subtree |
| Merkle.ExtractAscends | src/merkleblock.cpp:77-113 | Extracted positions are increasing and in range, whatever the input |
| Merkle.InjectiveIsBinding | src/merkleblock.cpp:39-57 | An injective pair hash is binding for every list, which is all that soundness and completeness use |
| Merkle.HashesDiffer | src/merkleblock.cpp:100-106 | Sibling subtrees over distinct ids have different hashes, so the guard against equal halves is never hit |
| Merkle.HashesPerLeaf | src/merkleblock.h:36-40 | At most one stored hash per transaction, and at least one |
| Merkle.HashesPerMatch | src/merkleblock.h:36-40 | At most 1 + matches * height stored hashes |
| Merkle.BitCount | src/merkleblock.h:47 | The number of bits is 2 * hashes - 1 plus the number of visited nodes with a single child, so it is 2 * hashes - 1 if and only if there is none |
| Merkle.BitPromiseFails | src/merkleblock.h:47 | Three transactions with the last one matched need 4 bits for 2 hashes |
| MerkleSize.SizeExact | src/merkleblock.h:31-48 | The encoded size from the numbers of hashes and of visited nodes with a single child |
| MerkleSize.GuaranteeExact | src/merkleblock.h:31-48 | The size is within 10 + ceil(32.25 * N) if and only if the visited nodes with a single child are no more than the spare flag bits and unused prefix bytes allow |
| MerkleSize.GuaranteeFails | src/merkleblock.h:31-48 | 1012 transactions, all matched: 32648 bytes where the comment promises 32647 |
| MerkleSize.SmallKeepsGuarantee | src/merkleblock.h:31-48 | Up to 252 hashes the size is within the promise, for every block and every mask |
| MerkleSize.OneKeepsGuarantee | src/merkleblock.h:31-48 | So it is for any number of hashes that two bytes hold, with at most one such node |
| MerkleSize.FewLone | src/merkleblock.h:31-48 | No block within the count limit has more than 15 such nodes |
| Merkle.WidthIsRoundedUp | src/merkleblock.h:66-68 | The width of a level is the count divided by 2^height, rounded up |
| Merkle.ShapeRange | src/merkleblock.cpp:39-57 | A node covers exactly the positions from pos * 2^height to the next multiple or the end |
| Merkle.BelowIsRange | src/merkleblock.cpp:60-63 | The matches below a node are the matches in its range |
| MerkleTree.PartialMerkleTree.CalcHash | src/merkleblock.cpp:39-57 | The recursion by height and position computes the hash of that subtree |
| MerkleTree.PartialMerkleTree.ParentOfMatch | src/merkleblock.cpp:60-63 | The loop over the leaves of a node finds whether one is matched |
| MerkleTree.PartialMerkleTree.TraverseAndBuild | src/merkleblock.cpp:59-75 | Bits and hashes are appended depth first, as specified |
| MerkleTree.PartialMerkleTree.TraverseAndExtract | src/merkleblock.cpp:77-113 | The cursors, the matches and the sticky failure flag are as specified, on any input |
| MerkleTree.PartialMerkleTree.ExtractMatches | src/merkleblock.cpp:131-162 | All rejections as specified; matches are replaced, positions appended, failure is sticky; a root other than the null hash is that of a cut whose bits and hashes are all there are |
| MerkleTree.PartialMerkleTree.constructor | src/merkleblock.cpp:115-127 | The tree for a block and a mask |
| MerkleTree.PackBits | src/merkleblock.h:100-102 | Bits are packed eight to a byte, low bit first, padded with zeros |
| MerkleTree.UnpackBits | src/merkleblock.h:94-97 | Every bit of every byte comes back |
| MerkleTree.Relay | src/merkleblock.cpp:59-162 | Build, pack, unpack and extract on the objects gives the true root and exactly the matched transactions |
| Chain.BlockIndex.GetAncestor | src/chain.cpp:84-109 | The walk over skip pointers ends at the block of that height on the way down, or null outside it |
| Chain.WalkReaches | src/chain.cpp:84-109 | That block is the one reached by nHeight - height parent steps |
| Chain.BlockIndex.WalkTo | src/chain.cpp:84-109 | The loop itself, with the number of its rounds, which is that of Steps when every skip pointer is set |
| SkipWalk.StepsBound | src/chain.cpp:74-109 | From a height below 2^b the walk to any lower height takes at most b * b rounds |
| SkipWalk.Ancestor | src/chain.cpp:84-109 | In every grown tree: the ancestor of a block at any height, in at most b * b rounds |
| SkipWalk.UpperWalk | src/chain.cpp:74-109 | From the upper half of a block of 2^(e+1) heights to a height in the lower half |
| Chain.BlockIndex.BuildSkip | src/chain.cpp:116-120 | The skip pointer leads to the ancestor at the skip height |
| Chain.BlockTree.AddToBlockIndex | src/validation.cpp:3125-3141 | Growing the tree by a block keeps parent links, heights, skip pointers and running time maxima right for all blocks |
| Chain.InvertsLowestOne | src/chain.cpp:71 | n & (n - 1) clears the lowest set bit |
| Chain.GetSkipHeight | src/chain.cpp:74-82 | The skip height is below the height |
| Chain.LastCommonAncestor | src/chain.cpp:156-171 | The highest block on both ways down, or null if there is none |
| Chain.StayTogether | src/chain.cpp:156-171 | Two ways down that meet stay together |
| Chain.ActiveChain.SetTip | src/chain.cpp:11-21 | Stopping at the first entry that is right leaves the whole vector the way down from the new tip |
| Chain.ActiveChain.FindFork | src/chain.cpp:51-60 | The highest block a given block shares with the chain |
| Chain.ActiveChain.ContainsExact | src/chain.h:408-410 | A block is in the chain if and only if it is on the way down from the tip |
| Chain.ActiveChain.GetLocator | src/chain.cpp:23-49 | The blocks at the locator heights in closed form of the way down, by the vector or by skip pointers, ending with the first block of the chain |
| Chain.ActiveChain.LocatorFalls | src/chain.cpp:37-45 | Locator heights fall strictly and end at the first block |
| Chain.ActiveChain.FindEarliestAtLeast | src/chain.cpp:62-68 | The binary search returns the first block of the chain at or above a height such that some block up to it has a time of at least the given one, and null exactly when there is none |
| Chain.BlockIndex.TimeMaxExact | src/validation.cpp:3141 | nTimeMax reaches a time exactly when some block on the way down does |
| BlockEncodings.Relay | src/blockencodings.cpp:19-219 | Encode, initialise from a pool and extra transactions, answer the request and fill: with no false short-id match the result, if accepted, is the original list; and it is accepted when the ids are distinct, no bucket is crowded and the block is good |
| BlockEncodings.PartiallyDownloadedBlock.InitData | src/blockencodings.cpp:49-169 | Invalid if and only if the header is missing, there is no transaction or more than 100000, or a prefilled one is missing, beyond 16 bits or too far on; otherwise failed if and only if ids repeat or a bucket is crowded; otherwise the slots are those of the specified searches, each stopped as soon as all places are filled, mempool_count counts the filled ones and prefilled_count the prefilled ones |
| BlockEncodings.PartiallyDownloadedBlock.PutPrefilled | src/blockencodings.cpp:59-75 | Accepts exactly the lists whose positions are all in range and puts each transaction at its position |
| BlockEncodings.PartiallyDownloadedBlock.SkipTaken | src/blockencodings.cpp:84-85 | The inner scan stops at the i-th free position without leaving the vector |
| BlockEncodings.PartiallyDownloadedBlock.MapShortIds | src/blockencodings.cpp:81-103 | The i-th short id maps to the i-th free position; accepted if and only if ids are distinct and no bucket is crowded |
| BlockEncodings.PartiallyDownloadedBlock.SearchPool | src/blockencodings.cpp:105-133 | The loop computes the specified search of a prefix of the pool, and stops as soon as all places are filled and not before |
| BlockEncodings.PartiallyDownloadedBlock.SearchExtra | src/blockencodings.cpp:135-164 | The same for the extra transactions; extra_count moves with mempool_count |
| BlockEncodings.PartiallyDownloadedBlock.FillBlock | src/blockencodings.cpp:177-219 | Refuses too few or too many transactions; otherwise the block is the slots completed in order, the object is cleared, and the verdict decides the status |
| BlockEncodings.Encode | src/blockencodings.cpp:19-29 | The message of a block: the first transaction prefilled, short ids of the others in order |
| BlockEncodings.EncodeDescribes | src/blockencodings.cpp:19-29 | That message describes the block |
| BlockEncodings.AllMapped | src/blockencodings.cpp:81-103 | The map has as many ids as there are short ids exactly when they are distinct |
| BlockEncodings.SearchIsRight | src/blockencodings.cpp:105-164 | With no false match every filled slot holds the transaction of the block |
| CompactBlock.PlacesAscend | src/blockencodings.cpp:59-75 | Prefilled positions are strictly increasing |
| CompactBlock.PlacedExact | src/blockencodings.cpp:59-75 | A position is filled exactly when some prefilled transaction has it, and with that transaction |
| CompactBlock.PlacedFree | src/blockencodings.cpp:59-75 | After k prefilled transactions exactly k positions are taken |
| CompactBlock.FreeUnique | src/blockencodings.cpp:83-86 | There is one i-th free position |
| CompactBlock.MapsInjective | src/blockencodings.cpp:81-103 | No two short ids map to one position |
| CompactBlock.PoolExact | src/blockencodings.cpp:109-132 | A slot holds the only pool transaction with its short id, and is empty when there are none or several |
| CompactBlock.PoolSound | src/blockencodings.cpp:109-132 | The pool search keeps the counter equal to the number of filled slots and touches no prefilled one |
| CompactBlock.ExtraSound | src/blockencodings.cpp:135-164 | So does the search of the extra transactions |
| CompactBlock.Rebuilds | src/blockencodings.cpp:177-198 | Filling with the missing transactions in order gives the original list |
| RollingBloom.RecentKeysRemembered | src/bloom.cpp:246-295 | The last nElements keys are all found |
| RollingBloom.RollingBloomFilter.ContainsRecent | src/bloom.cpp:246-295 | The same of the object after any sequence of inserts since reset |
| RollingBloom.RollingBloomFilter.Insert | src/bloom.cpp:246-275 | insert keeps every position tagged with the generation that last wrote it, while that is one of the three live ones; a full generation is followed by the next, 1 after 3 |
| RollingBloom.RollingBloomFilter.Contains | src/bloom.cpp:283-295 | True if and only if every position of the key was written by one of the last keys, those of two full generations and of the current one |
| RollingBloom.RollingBloomFilter.Wipe | src/bloom.cpp:254-262 | The masked loop clears exactly the positions tagged with the generation being reused |
| RollingBloom.RollingBloomFilter.StartGeneration | src/bloom.cpp:248-263 | Starting a generation wipes and keeps the tags exact |
| RollingBloom.RollingBloomFilter.MarkAll | src/bloom.cpp:266-274 | The loop over the hash functions tags exactly the positions of the key |
| RollingBloom.RollingBloomFilter.Reset | src/bloom.cpp:303-309 | An empty filter remembers nothing and is exact |
| RollingBloom.WipeMask | src/bloom.cpp:254-259 | The mask keeps exactly the positions whose two-bit tag is not the generation |
| RollingBloom.WipeKeepsExact | src/bloom.cpp:248-263 | Wiping keeps the tags exact for the next generation |
| RollingBloom.MarkKeepsExact | src/bloom.cpp:266-274 | Marking keeps the tags exact with the key added |
| RollingBloom.RecentGenerations | src/bloom.cpp:213 | The last nElements keys were written in the last three generations |
| RollingBloom.WrittenSince | src/bloom.cpp:266-274 | A position of a key was last written no earlier than in the generation of that key |
| RollingBloom.FastModFits | src/bloom.cpp:242-244 | The multiply-and-shift reduction is always in range |
| Base58.DecodeEncode | src/base58.cpp:38-125 | Decoding an encoded byte string gives it back if and only if it is empty or within the length limit |
| Base58.EncodeDecode | src/base58.cpp:38-125 | Encoding what was decoded gives the text back without the spaces around it |
| Base58.EncodeRoom | src/base58.cpp:97 | 256^n <= 58^(n * 138 / 100 + 1) for every n, so the encoding buffer suffices |
| Base58.DecodeRoom | src/base58.cpp:52 | 58^n <= 256^(n * 733 / 1000 + 1) for every n, so the decoding buffer suffices |
| Base58.AlphabetInverse | src/base58.cpp:18-36 | The character table and the digit table are inverse |
| Base58.Canonical | src/base58.cpp:38-125 | A digit string is its leading zeros followed by the numeral of its value |
| Base58Codec.EncodeBase58 | src/base58.cpp:87-125 | The in-place conversion computes the specified text, and its carry assertion holds |
| Base58Codec.DecodeBase58 | src/base58.cpp:38-85 | The in-place conversion with its early exits returns the specified result on every text, and its carry assertion holds |
| Base58Codec.MultiplyAdd | src/base58.cpp:61-67 | The carry loop replaces the held number by factor * number + digit, without a carry left over, and the length by that of its numeral |
| Base58Codec.ReadDigits | src/base58.cpp:56-72 | The loop over the characters stops at a bad one, at a result that is too long, or at the end of the digits, holding the number read |
| Base58Codec.ToBase58 | src/base58.cpp:97-118 | The loop over the bytes leaves the numeral of their value |
| Base58Check.CheckRoundTrip | src/base58.cpp:140-164 | A payload sealed with its checksum comes back if and only if it is within the limit, including the clamped one |
| Base58Check.CheckSound | src/base58.cpp:149-164 | Whatever is accepted is the encoding of its payload and the checksum of that payload |
| Base58Check.CheckInjective | src/base58.cpp:140-147 | Two payloads never share an encoding |
| Base58Check.EncodeBase58Check | src/base58.cpp:140-147 | The method computes that encoding |
| Base58Check.DecodeBase58Check | src/base58.cpp:149-164 | The method computes that decoding |
| Base58Check.EmbeddedNul | src/base58.cpp:132-138 | A text with an embedded NUL decodes to nothing, so the separate test loses no valid text |
| CheckQueue.AddWakes | src/checkqueue.h:145-157 | Several new checks wake every parked worker, a single one wakes one parked worker if there is one, none wakes nobody |
| Coins.FetchAdds | src/coins.cpp:42-57 | A read adds at most the entry it asks for, clean, and if and only if the view has the coin; it reads the base if and only if there was no entry |
| Coins.UncacheExact | src/coins.cpp:212-219 | Uncache removes the entry if and only if it is neither dirty nor fresh, and every other entry stays |
| Coins.SpendLeaves | src/coins.cpp:100-114 | Spending erases a fresh entry, leaves a spent dirty entry otherwise, and touches no other |
| Coins.AddCoinMarks | src/coins.cpp:68-87 | Throws if and only if an unspent entry is in the way and overwriting is not allowed; otherwise the entry holds the coin, is dirty, and is fresh exactly when it was or when nothing may be overwritten and nothing was dirty |
| Coins.MergeExact | src/coins.cpp:147-203 | Which entry a write-back leaves at an outpoint, flag by flag: clean child entries are ignored, a spent one is dropped if and only if freshness says nobody below has the coin, everything else is dirty with the parent flag or, for lack of an entry, that of the child |
| CoinsCache.OutputsShown | src/coins.cpp:89-98 | The view with the outputs has, at every spendable output, a coin with the value and script of that output and the height and kind of the transaction, and is as before everywhere else |
| CoinsCache.CoinsViewCache.SpendEntry | src/coins.cpp:103-112 | Erases the entry if it is fresh, else leaves a spent dirty one; no other entry changes |
| AddrManOps.FindsExactly | src/addrman.cpp:74-85 | An address with its port is found if and only if there is an entry with both |
| AddrManEffects.GoodUnknown | src/addrman.cpp:196-217 | Confirming an address that has no entry only sets the time of the last success |
| AddrManEffects.GoodReturns | src/addrman.cpp:246-259 | Without a test the old occupant is back in the new table at the slot of its own source, and every other tried entry is as it was |
| AddrManCollisions.ResolveErases | src/addrman.cpp:548-567 | A collision whose entry is gone, whose address is not valid, or whose opponent connected in the last four hours is erased, and nothing else changes |
| AddrManCollisions.ResolveEvicts | src/addrman.cpp:568-585 | Otherwise the opponent goes back to the new table if and only if it was tried in the last four hours, though not in the last minute, without success, or was not tried in them and the pending entry has waited for more than 40 minutes; the pending entry then has its slot and the collision is gone; else nothing changes |
| AddrManCollisions.ResolveKeepsFresh | src/addrman.cpp:541-598 | Resolving any set of collisions evicts no tried entry that connected in the last four hours |
| AddrManCollisions.ResolveKeepsOthers | src/addrman.cpp:541-598 | Resolving a set of collisions leaves the others pending |
| AddrManCollisions.ResolveSingle | src/addrman.cpp:544-596 | Resolving one collision is what ResolveErases and ResolveEvicts say |
| AddrManCollisions.ResolveClears | src/addrman.cpp:541-598 | After resolving a set no collision of it is pending whose entry is gone, whose address is not valid, or whose opponent connected in the last four hours |
| AddrManStats.TerribleExact | src/addrman.cpp:40-58 | An entry is terrible if and only if it was not tried in the last 60 seconds and its time is more than 600 seconds ahead, missing or more than 30 days old, or it failed three times without any success, or ten times without one for a week |
| AddrManStats.BucketsExact | src/addrman.h:120-130 | There are 256 tried and 1024 new buckets of 64 positions: no hash leads beyond them, and each is reached by some hash |
| AddrManStats.HomeIsOwnSource | src/addrman.cpp:177-179 | The slot an evicted entry goes back to is the one its own source gives it |
| AddrManStats.AttemptEffect | src/addrman.cpp:335-355 | An attempt at an unknown address changes nothing; at a known one it sets the time of the last try, and counts as a failure if and only if it may and none was counted since the last success of any address; nothing else changes |
| AddrManStats.ConnectedEffect | src/addrman.cpp:503-521 | A connection to a known address renews its time if and only if that is more than 20 minutes old, and nothing else |
| AddrManStats.SetServicesEffect | src/addrman.cpp:523-539 | The services of a known address are replaced, and nothing else |
| AddrManStats.RefreshEffect | src/addrman.cpp:277-284 | An announcement renews the time if and only if it is newer by more than the penalty and an hour (a day, if it is a day old), to its own time less the penalty, and leaves the rest |
| AddrManStats.RefreshServices | src/addrman.cpp:284 | An announcement adds its services to those known |
| AddrManStats.ReferredAgainExact | src/addrman.cpp:286-303 | A known entry gets a chance at another reference if and only if the announcement is newer, it is not tried, it has not eight references already, and a random draw is a multiple of 2^references |
| AddrManStats.PlaceAgainExact | src/addrman.cpp:311-331 | A referenced entry gets the slot of the source if and only if that is free or its occupant, another one, is terrible; otherwise nothing changes |
| AddrManStats.AddKnownExact | src/addrman.cpp:262-333 | A known address is refreshed, and gets one more reference, at the slot of the source, if and only if it wins the draw and there is room |
| AddrManStats.AddNewEntry | src/addrman.cpp:305-331 | An unknown address is kept if and only if the slot of its source is free or its occupant is terrible or has another reference, and the entry holds what was announced, less the penalty unless the source announces itself |
| AddrManStats.AddUnroutable | src/addrman.cpp:264-265 | An address that is not routable changes nothing; the result is true if and only if the address is routable and unknown |
| AddrManStats.GetAddrFills | src/addrman.cpp:482-501 | If GetAddr_ returns fewer than 2500 and one more would still be within 23 percent, it returns every entry that is not terrible |
| AddrManStats.AddressOfExact | src/addrman.cpp:498-499 | What is given out of an entry: its address, time and services |
| Miner.BlockAssembler.Consider | src/miner.cpp:327-423 | One round and the decision to stop: after low fees, or more than 1000 failures in a row in an almost full block |
| Miner.SelectionAdmissible | src/miner.cpp:298-425 | Over a whole selection the block only grows, and by admissible transactions only |
| Miner.NextRound | src/miner.cpp:371-390 | One more round extends a selection and its count of consecutive failures |
| Packages.SortedByCount | src/miner.h:82-89 | Sorted means: by ancestor count, then by hash, each transaction once |
| Packages.FeesExact | src/miner.cpp:235-260 | For a candidate that never failed the recorded fees are those of the remaining package if and only if the priority deltas of its ancestors in the block, all but the first one subtracted, add up to zero |
| Packages.FeesTooHigh | src/miner.cpp:248-255 | A prioritised ancestor: the third transaction is taken to pay 1500 with 1000 left to earn |
| Packages.FeesRight | src/miner.cpp:235-260 | Without prioritised ancestors in the block the recorded fees of such a candidate are right |
| Cuckoo.LocsExact | src/cuckoocache.h:242-252 | The k-th location divides the table as the k-th hash divides 2^32 |
| Cuckoo.NextDisplacement | src/cuckoocache.h:430 | A later displacement uses the location after the one used last, and the first after the eighth |
| Cuckoo.InsertRenews | src/cuckoocache.h:395-400 | Inserting a stored element changes one slot, where it is: recent and kept |
| Cuckoo.InsertAdds | src/cuckoocache.h:392-440 | Inserting any other element adds it, recent and kept, and loses one slot content, which is collectable or what was left in hand at the end |
| Cuckoo.InsertFound | src/cuckoocache.h:392-440 | An inserted element is found afterwards if and only if it was stored or does not bounce: not every round finds all locations kept and ends with the new element in hand |
| Cuckoo.InsertForgets | src/cuckoocache.h:392-440 | Inserting makes at most one other element unfindable, and that one was collectable or the rounds ran out |
| Cuckoo.EraseMarks | src/cuckoocache.h:469-479 | contains with erase marks one slot of the element collectable, and nothing if it is not stored |
| Cuckoo.StoredExact | src/cuckoocache.h:469-479 | contains is true if and only if one of the eight locations holds the element |
| Cuckoo.EpochCheckExact | src/cuckoocache.h:288-320 | The counter goes down while positive; at zero the kept recent entries are counted, and either the counter restarts at the largest of 1, epoch_size / 16 and epoch_size less the count, or, if and only if that count has reached epoch_size, a new epoch begins: recent entries become old and older ones collectable |
| Cuckoo.LiveIsCount | src/cuckoocache.h:293-300 | The count is the number of slots that are recent and kept |
| CuckooCache.NewKept | src/cuckoocache.h:392-440 | The new element is kept unless it bounces |
| Compact.ProofExact | src/chain.cpp:122-135 | The proof is zero if and only if the target is zero, its sign bit is set or it reaches 2^256; otherwise it is how often the target plus one goes into 2^256 |
| Compact.HarderProvesMore | src/chain.cpp:122-135 | A smaller target never proves less |
| MerkleProof.ProofAccepted | src/merkleblock.cpp:131-162 | Every cut of the tree without equal branches, written depth first as one bit for each node and one hash for each cut, is accepted with its root and matches, if its hashes are all there are and its bits fill the last byte |
| MerkleProof.AcceptedIsProof | src/merkleblock.cpp:131-162 | Nothing else is: a root other than the null hash is that of such a cut, all hashes are used, and less than a byte of bits is left |
| MerkleProof.CutIsRead | src/merkleblock.cpp:77-113 | A cut, at any offset of any bits and hashes, is read as that cut |
| MerkleProof.ReadIsCut | src/merkleblock.cpp:77-113 | Whatever is read without a complaint is a cut |
| MerkleProof.CutSize | src/merkleblock.cpp:139-144 | A cut has at most one hash for each transaction and at least one bit for each hash |
| Chain.ActiveChain.LocatorClosed | src/chain.cpp:23-49 | The i-th block of a locator is i below the first for the first eleven, then 9 + 2^(i - 10) below, and never below the first block of the chain |
| Chain.ActiveChain.LocatorEnds | src/chain.cpp:31-34 | The list ends with the first entry that drops to height 0 |
| Chain.ActiveChain.LocatorLength | src/chain.cpp:25-46 | A locator has height + 1 entries up to height 11, and n entries for heights above 9 + 2^(n - 12) up to 9 + 2^(n - 11), so it is logarithmic; the 32 reserved entries suffice if and only if the height is at most 2097161 |
| Chain.ActiveChain.LocatorExact | src/chain.cpp:23-49 | Each block of the list is the one at that height on the way down, and exactly the last is the first block of the chain |
| CompactBlock.PlaceIsSum | src/blockencodings.cpp:59-66 | A prefilled transaction is behind all skipped places and all prefilled ones before it |
| CompactBlock.ExtraExact | src/blockencodings.cpp:135-164 | The extra search fills a place that was not found before with the first match and empties one that a match with another witness hash disputes; a place emptied before stays empty |
| CompactBlock.SearchExact | src/blockencodings.cpp:105-164 | A place is filled if and only if at most one pool transaction has its short id and the extra ones that have it all agree with it, or for lack of it with each other |
| CompactBlock.FirstMatchExact | src/blockencodings.cpp:109-132 | The first match is the first transaction looked at that has the short id |
| BlockEncodings.PartiallyDownloadedBlock.MapEach | src/blockencodings.cpp:81-98 | All short ids are mapped to free positions in order, unless and until a bucket is crowded |
| BlockEncodings.KeyCount | src/blockencodings.cpp:99-103 | As many keys as ids if and only if the ids are distinct |
| BlockEncodings.PartiallyDownloadedBlock.MapOne | src/blockencodings.cpp:84-86 | One short id gets the next free position |
| BlockEncodings.PartiallyDownloadedBlock.OfferPool | src/blockencodings.cpp:110-126 | One pool transaction fills, empties or leaves a place as specified |
| BlockEncodings.PartiallyDownloadedBlock.OfferExtra | src/blockencodings.cpp:136-157 | One extra transaction fills, empties or leaves a place as specified |
| BlockEncodings.MisplacedExact | src/blockencodings.cpp:59-75 | The positions are all in range if and only if no prefilled transaction is missing, beyond 16 bits or too far on |
| RollingBloom.SpotExact | src/bloom.cpp:242-274 | The pair of words divides the data as the hash divides 2^32, and the bit is the lowest six bits of the hash |
| RollingBloom.RemembersExact | src/bloom.cpp:246-295 | The filter contains a key if and only if each position of the key was written by one of the last keys: those of the last two full generations and of the current one |
| RollingBloom.TaggedExact | src/bloom.cpp:246-275 | A position has a tag if and only if one of those keys wrote it |
| RollingBloom.LastWrittenExact | src/bloom.cpp:266-274 | A position was last written in a generation or later if and only if a key of then writes it |
| RollingBloom.LastThree | src/bloom.cpp:213-214 | The three live generations are the last 2 * nEntriesPerGeneration keys and those of the current one |
| RollingBloom.RollingBloomFilter.constructor | src/bloom.cpp:206-231 | An empty filter for so many elements and hash functions, with as many words as the bits need |
| Base58Exact.DecodeExact | src/base58.cpp:38-85 | Bytes are decoded if and only if the text is their encoding with white space around it, and they are none or within the length limit |
| Base58Exact.DecodeSurrounded | src/base58.cpp:38-85 | Whatever the white space around it, an encoding is decoded unless it is too long |
| Base58Exact.CheckExact | src/base58.cpp:149-164 | With a checksum: if and only if the text is the encoding of the payload and its checksum with white space around it, and the payload is within the limit and, with its checksum, within the largest int |
| Base58Exact.AlphabetIs | src/base58.cpp:18 | The alphabet, in order |

## Left out

- Check queue: interruption of threads and the destructor are not modelled; nTodo is kept below 2^32 by a guard on Add.
- Coins: partial database batches, AccessByTxid, GetValueIn and the cursor interface are not modelled; script capacity is taken to be its size.
- Address manager: Serialize, Unserialize, DecodeAsmap, Select_ and GetChance (floating point, ends only with probability) are not modelled; Clear is modelled by a fresh object, because it keeps the pending collisions.
- AddrManager.Manager.GetAddr_: takes one reading of the clock for the whole loop, where the source reads it for each entry.
- AddrManager.Manager.ResolveCollisions_: takes one reading of the clock for the whole loop, where the source reads it for each test.
- AddrManager.Manager.SelectTriedCollision_: the random choice of the pending id is a parameter.
- Block assembler: the coinbase, the header and the final validity test of CreateNewBlock are not modelled; which of two candidates scores better is left open, so the theorems hold for any order.
- Packages.FeesExact: makes no claim about the fees on record of a candidate that failed and was inserted again.
- Cuckoo cache: depth_limit comes from a floating-point logarithm and is a parameter; memory ordering of the flags and setup_bytes are not modelled.
- 256-bit arithmetic: getdouble, hexadecimal text, the bitwise operators and GetBlockProofEquivalentTime are not modelled.
- Partial Merkle trees: 32-bit wrap-around of positions for counts near 2^32 is not modelled.
- Merkle.MatchesAreGenuine: makes no claim when the true root is the null hash, which is also what a failed extraction returns.
- Block index: chain work, status bits and block files are not modelled; locators list blocks rather than their hashes.
- Chain.BlockTree.AddToBlockIndex: does not model the look-up of a header that is already known, which returns the known block.
- SkipWalk.StepsBound: a bound for every height; the smaller figure that the comment reports for 2^18 blocks comes from simulations and is not claimed.
- Chain.ActiveChain.GetLocator: does not model the 32-bit overflow of the doubling step, which needs more than 2^30 blocks.
- Compact blocks: the wire format and SipHash are not modelled; a crowded bucket of the short-id map and CheckBlock are parameters.
- BlockEncodings.PartiallyDownloadedBlock.SearchExtra: extra_count can fall below zero, where the source, whose counter is unsigned, wraps around.
- Rolling Bloom filter: the size formulas (logarithms in floating point) are parameters, nElements is positive, and the false-positive rate is not modelled.
- Base 58: characters are compared by code point; the double hash of Base58Check is a parameter that yields four bytes.
- src/net.cpp, src/init.cpp, src/httpserver.cpp, src/dbwrapper.cpp and the other plumbing, script, wallet and validation code are not part of this model.
- src/bech32.cpp, src/blockfilter.cpp, src/compressor.cpp and src/limitedmap.h would add easier members of the same kind.
