# A verified model of the framework's concurrent and stateful core

This project models seven parts of the framework that keep state over many calls, and proves
what they promise over whole runs: the Redis locks, the weighted and consistent-hash load
balancers, the trie and radix routers, the rate limiters, the middleware chain, the job queue
with the circuit breaker, and the sharded cache.  `dafny verify dfyconfig.toml` checks all of it.

Each part has a specification (functions, or a transition system whose event lists are the
interleavings of all participants), the theorems about every run of it, and, where the source
changes state in place, a class whose methods are proved to do exactly one step of it.

| file | what it holds |
|---|---|
| `KeyServer`, `RedLock`, `RedLockHold`, `RedLockProgram` | quorum lock: commands, interleavings, how long an answer is exclusive, the two loops |
| `WatchdogLock`, `WatchdogRenewal`, `WatchdogProgram` | single-server lock, its renewal every two seconds, its loops |
| `Instances`, `SmoothWeighted`, `HashRing` | the two balancers with a non-trivial promise |
| `Requests`, `TokenBucket`, `LeakyBucket`, `WindowLimiters`, `SlidingCounter` | the limiters |
| `Paths`, `TrieTable`, `TrieRoutes`, `TriePatterns`, `TriePromise` | paths, the trie as a table, its search against a list of patterns |
| `KeyTrees`, `TrieRouter`, `TrieWrapper` | linked trie nodes; the hash table in front of the trie |
| `RadixRoutes`, `RadixAgreement`, `RadixTree` | the greedy tree against the trie; its linked nodes |
| `Middleware`, `ChainSteps` | the chain of handlers: its meaning and the context object; the same calls step by step |
| `JobQueue`, `JobRetries`, `QueueProgram` | workers over the in-memory driver |
| `CircuitBreaker`, `BreakerRuns` | throttling; when the breaker refuses and recovers |
| `ExpiringMap`, `EntryLifetime`, `ShardedCache` | one expiring map and its runs; how long its entries answer; the shards that stand for it |

## Assumptions

Locks: one clock, atomic commands, distinct values per lock object, servers that do not lose
keys; commands and replies may be lost at any time, and the other objects may do anything in
between.  Limiters, queue, breaker and cache: clock readings are parameters that do not run
backwards where a theorem says `Sorted`, `InOrder` or `Forward`; each mutex-protected method is
one atomic step.  Tokens are reals and integers are unbounded.  Hash functions of the cache are
arbitrary; the ring's theorems hold for every hash function and are used with djb2.

## Where the source falls short of its promise

Each of these promises fails in some run.  The lemma named first says exactly when it holds, the
others give the runs.

* `RedLockHold.AnswerIsExclusiveIff`: `Lock` does not look at the clock before it answers true, so
  the answer is exclusive, in all runs of callers that keep it for less than d after the start of
  the attempt, exactly when d is at most every ttl (`LongHoldsOverlap`,
  `RedLock.LateLockIsNotExclusive`).
* `WatchdogRenewal.SafeIffTtlAboveInterval`: the renewal interval is two seconds for every ttl.
  Critical sections whose renewals take effect at most d late keep the key, and never overlap,
  exactly when two seconds and d are less than every ttl (`LateRenewalOverlaps`,
  `TwoSecondTtlOverlaps`).
* `TokenBucket.RefinesIff`: the Redis bucket answers as the in-memory one in all runs exactly when
  `burst <= rate * interval` in whole seconds; otherwise expiry hands the burst out again
  (`ExpiryShows`).
* `SlidingCounter.BoundHoldsIff`: the Redis window keeps its rate exactly when the precision
  divides the window (`UnevenWindowLeaks`).
* `WindowLimiters.LimitHoldsIff`: the fixed window lets more than its limit through in some interval
  of its length unless limit or window is zero (`FixedBoundIsTight`); twice the limit is the bound.
* `LeakyBucket.RefusedForeverIff`: every call drops the fraction of a unit that has leaked and sets
  the clock of the leak anew.  A bucket that the first call fills refuses all later calls for one
  unit, over any stretch of time, exactly when rate times each gap is less than a unit; `PollingIff`
  says so of polling at a fixed gap, as `WaitN` does.
* `ChainSteps.AbortIsFinalIff`: Abort is final exactly for chains of at most `abortIndex + 1`, or 16384,
  handlers (`WakesUp`); `ChainSteps.RunsAsChainIff`: these are also the chains that always return, and
  do what the meaning of the chain says (`StaysAwake`).
* `ChainSteps.FalseReportIff`: in a chain that never aborts the index stays below the abort index
  exactly when handlers and calls of Next are together fewer than it; otherwise `IsAborted` comes to
  report an Abort that nobody called (`FalseReport`).
* `JobRetries.AllTriesIff`: a job that failed was executed MaxRetry + 1 times, in all runs and whatever
  other jobs there are, exactly when it has no retries, or one retry and no delay; otherwise taking
  it too early uses retries up (`DelayCostsTries`, `BackoffCostsTries`,
  `JobQueue.EarlyReleaseCostsRetries`).
* `TriePromise.KeptIffOrdinary`: a request segment that is a bare ":" or "*" meets the parameter or
  wildcard node as a literal (`TriePatterns.BareColonIsNotBound`); requests without one are exactly
  those that are answered as promised whatever is registered.
* `TrieWrapper.ShortcutIsFaithfulIff`: the hash table compares whole paths, the trie their segments.
  They answer alike exactly when a static path's entry in the table is the chain that was registered
  last for its segments (`RootOnlyInHashTable`).
* `RadixRoutes.RadixAnswersIff`: the radix tree does not come back out of a literal child
  (`GreedyMisses`), and a catch-all node is given a bare chain where the search expects a map, so no
  wildcard route is ever answered.
* `RadixAgreement.AgreesIff`: the radix tree binds a bare ":" that the trie takes as a literal; the
  two agree for all well-formed patterns exactly on requests without a bare ":" and without a final
  bare "*" (`ColonDisagrees`, `StarDisagrees`).

## Model

| member | source | states |
|---|---|---|
| RedLock.StepKeepsGrants | framework/lock/redis_lock.go:273-310 | no command of any object and no tick inside the lease takes away a key granted to an attempt |
| RedLock.RunKeepsInv | framework/lock/redis_lock.go:273-310 | every interleaving keeps the invariant: the success count is the number of granting positions, and grants last as long as the lease |
| RedLock.QuorumsMeet | framework/lock/redis_lock.go:284-287 | two majorities of one client list share a position |
| RedLock.MutualExclusion | framework/lock/redis_lock.go:273-310 | in no interleaving, with lost commands and replies, failed attempts and expiry, are two objects past a true Lock and within ttl of the start of their attempts |
| RedLock.LeaseHasMajority | framework/lock/redis_lock.go:273-295 | an object in lease owns the live key on a majority of positions |
| RedLock.OnlyOwnerOrTimeFrees | framework/lock/redis_lock.go:297-310 | a live key leaves its owner only by that owner's delete or by expiry |
| RedLock.LateLockIsNotExclusive | framework/lock/redis_lock.go:273-295 | a run in which two objects have both been told true |
| RedLockHold.BriefHoldersAreAlone | framework/lock/redis_lock.go:273-310 | objects past a true Lock that keep it for less than d after the start of their attempts, with d at most every ttl, are never two at a time |
| RedLockHold.LongHoldsOverlap | framework/lock/redis_lock.go:273-295 | for every configuration of independent servers, an object that may keep the lock for longer than its ttl still holds when another is told true |
| RedLockHold.AnswerIsExclusiveIff | framework/lock/redis_lock.go:273-295 | the answer true is exclusive in all runs with hold time below d if and only if d is at most the ttl of every object that tries |
| RedLockProgram.World.Others | framework/lock/redis_lock.go:273-310 | any behaviour of the other objects and the clock is a run that leaves my own phase alone |
| RedLockProgram.Client.SetAll | framework/lock/redis_lock.go:277-282 | the loop sends exactly one SetNX per client and returns the number of successes |
| RedLockProgram.Client.Attempt | framework/lock/redis_lock.go:275-292 | one attempt holds the lock or has released everything; if nobody else acts, it succeeds if and only if more than half of the independent servers were free and answered |
| RedLockProgram.Client.Lock | framework/lock/redis_lock.go:273-295 | the retry loop is a run of the protocol; true means held since a moment inside the call, and within ttl of it nobody else is in lease; false means that every attempt was made; if nobody else acts, a majority of independent servers that are free and answer gives true, and with a single attempt nothing less does |
| RedLockProgram.Client.DeleteAll | framework/lock/redis_lock.go:306-308 | the release loop sends exactly one compare-and-delete per client |
| RedLockProgram.Client.Unlock | framework/lock/redis_lock.go:297-310 | Unlock is a run of the protocol that sends one compare-and-delete per client and ends idle; whatever the others do, no key whose delete was executed is still the caller's, and if they do nothing, the keys that were are free and all others as before |
| RedLockProgram.Exclusive | framework/lock/redis_lock.go:273-310 | an object in lease is the only one |
| WatchdogLock.RunKeepsInv | framework/lock/redis_lock.go:67-130 | in every run the key of a critical section carries the end of its last effective lease |
| WatchdogLock.OwnsKeyIffInLease | framework/lock/redis_lock.go:117-130 | a critical section owns the key exactly until its last effective lease ends |
| WatchdogLock.GuardedIffTimely | framework/lock/redis_lock.go:102-130 | for any renewal schedule, the key is never lost during any critical section of a run if and only if the clock never reaches the end of the last effective lease |
| WatchdogLock.TimelyRunsNeverOverlap | framework/lock/redis_lock.go:225-237 | in timely runs two critical sections never overlap |
| WatchdogLock.OwnerChanges | framework/lock/redis_lock.go:102-130 | ownership ends only by the owner's delete, its own non-positive extension or expiry, and begins only by setting a key that was not live |
| WatchdogLock.EndedWatchdogIsSilent | framework/lock/redis_lock.go:197-216 | a watchdog ticks no more after a tick that was not answered, or after it was stopped, until the lock has been set again |
| WatchdogRenewal.ShortDelayIsSafe | framework/lock/redis_lock.go:197-237 | if renewals every two seconds take effect at most d late and two seconds plus d is below every ttl, every critical section keeps the key throughout and none overlap |
| WatchdogRenewal.LateRenewalOverlaps | framework/lock/redis_lock.go:225-237 | if some ttl is at most two seconds plus d, a run with renewals in time loses the key during a critical section and overlaps with another |
| WatchdogRenewal.SafeIffTtlAboveInterval | framework/lock/redis_lock.go:225-237 | both the kept key and the absence of overlap hold in all runs with renewals in time if and only if two seconds plus d is below the ttl of every object that tries |
| WatchdogRenewal.TwoSecondTtlOverlaps | framework/lock/redis_lock.go:231-233 | with a ttl of two seconds or less critical sections overlap although no renewal is late |
| WatchdogRenewal.RenewalLastsTtl | framework/lock/redis_lock.go:117-130 | after an executed renewal of a live key its owner keeps it, in every run, at all times before renewal plus ttl, until it deletes it or extends it otherwise |
| WatchdogRenewal.AnyJobIsCovered | framework/lock/redis_lock.go:197-237 | with a ttl above 2000 milliseconds there is, for every n, a run in which ticks every two seconds, the only renewals, keep the key during a critical section from time 0 to 2000 * n |
| WatchdogProgram.Client.Lock | framework/lock/redis_lock.go:67-76 | true is answered at the moment the key is set, with the whole lease ahead; false only after all attempts; if nobody else acts, a single attempt answers true if and only if the key is free and the command is answered |
| WatchdogProgram.Client.WithWatchdogLock | framework/lock/redis_lock.go:225-237 | the function runs only in a critical section, the object is idle afterwards and the key not its own if the delete was executed, and in timely runs no other object was critical at any moment of it |
| WatchdogProgram.NeverShared | framework/lock/redis_lock.go:225-237 | at no moment of a timely run are two objects critical |
| Instances.FilterAlive | framework/loadbalance/balancer.go:104-110 | keeps the live instances in their order |
| Instances.AliveKeepsOrder | framework/loadbalance/balancer.go:104-110 | the filtered list is the live instances, each at its place, in their order |
| SmoothWeighted.NextKeepsSum | framework/loadbalance/balancer.go:138-152 | a selection leaves the sum of the current weights as it was |
| SmoothWeighted.NextKeepsBound | framework/loadbalance/balancer.go:138-152 | no current weight sinks to minus the total |
| SmoothWeighted.StateInvariant | framework/loadbalance/balancer.go:126-152 | after any number of selections the entries sum to 0 and each exceeds minus the total |
| SmoothWeighted.ClosedForm | framework/loadbalance/balancer.go:126-152 | after t selections entry i is t times its weight minus the total times its picks |
| SmoothWeighted.PrefixFairness | framework/loadbalance/balancer.go:126-152 | no instance is ever ahead of its share by a whole selection |
| SmoothWeighted.ZeroWeightNeverPicked | framework/loadbalance/balancer.go:126-152 | a zero-weight instance is never chosen |
| SmoothWeighted.PicksAddUp | framework/loadbalance/balancer.go:126-152 | the picks of all instances add up to the number of selections |
| SmoothWeighted.ZeroAgainIff | framework/loadbalance/balancer.go:126-152 | the state is back to zero after t selections if and only if the total divides t times every weight |
| SmoothWeighted.ExactShares | framework/loadbalance/balancer.go:126-152 | whenever all shares of the first t selections are whole, the counts are exactly the shares |
| SmoothWeighted.EveryBlockIsExact | framework/loadbalance/balancer.go:99-155 | if g divides every weight, any W/g consecutive selections, wherever they start, choose instance i exactly weight/g times, and the state has period W/g |
| SmoothWeighted.WeightedRoundRobinBalancer.TotalWeight | framework/loadbalance/balancer.go:126-129 | the loop adds up the weights |
| SmoothWeighted.WeightedRoundRobinBalancer.AddWeights | framework/loadbalance/balancer.go:138-141 | the loop adds every weight to its entry, in place |
| SmoothWeighted.WeightedRoundRobinBalancer.Greatest | framework/loadbalance/balancer.go:143-149 | finds the first greatest entry |
| SmoothWeighted.WeightedRoundRobinBalancer.Select | framework/loadbalance/balancer.go:99-155 | with a positive total the answer and the new weights are those of one smooth selection, after a reset when the number of live instances changed; otherwise plain round robin; nothing changes without live instances |
| SmoothWeighted.WeightedRoundRobinBalancer.SelectMany | framework/loadbalance/balancer.go:99-155 | consecutive calls with one instance list make the selections of the specification one after the other |
| SmoothWeighted.AnswersAreExact | framework/loadbalance/balancer.go:99-155 | among the answers of an object that starts with zero weights, every block of W/g holds instance i exactly weight/g times |
| SmoothWeighted.InstancesGetShares | framework/loadbalance/balancer.go:99-155 | the same in terms of the weights that the instances carry |
| HashRing.SuccessorUnique | framework/loadbalance/balancer.go:242-257 | the slot found does not depend on the order of the map walks |
| HashRing.StrLeIff | framework/loadbalance/balancer.go:242-257 | slots are compared lexicographically: one ends first, or has the smaller character at the first difference |
| HashRing.Djb2IsPolynomial | framework/loadbalance/balancer.go:188-195 | the 32-bit hash, which wraps around at every character, is the polynomial with factor 33 and start 5381, reduced once |
| HashRing.NodeNameIsAddress | framework/loadbalance/balancer.go:218 | instances with one node name have one host and one port |
| HashRing.RingValues | framework/loadbalance/balancer.go:177-185 | every slot of the ring belongs to a listed node, and the ring is not empty |
| HashRing.RingSlotsIff | framework/loadbalance/balancer.go:177-185 | the ring has exactly the slots of the virtual nodes of the listed nodes |
| HashRing.RingInsert | framework/loadbalance/balancer.go:177-185 | putting a node anywhere into the list only adds slots of it or takes over slots for it, collisions included |
| HashRing.MinimalDisruption | framework/loadbalance/balancer.go:177-185 | for any hash function, removing a node that does not own a key, or adding one that does not take it, leaves the slot and the owner of the key |
| HashRing.OwnerIsStable | framework/loadbalance/balancer.go:221-271 | adding or removing a node at any position changes the owner of a key only to or from that node |
| HashRing.ConsistentHashBalancer.BuildHashRing | framework/loadbalance/balancer.go:177-185 | the nested loops build the ring of the node list |
| HashRing.ConsistentHashBalancer.Closest | framework/loadbalance/balancer.go:242-257 | the two loops, in any walking order, find the successor with wrap-around |
| HashRing.ConsistentHashBalancer.Locate | framework/loadbalance/balancer.go:234-260 | finds the node that owns the key |
| HashRing.ConsistentHashBalancer.IndexOf | framework/loadbalance/balancer.go:261-270 | finds the first instance at the node's address; the fallback is never reached |
| HashRing.ConsistentHashBalancer.Select | framework/loadbalance/balancer.go:198-271 | rebuilds the ring from the live instances and answers the first one whose address owns the key |
| TrieTable.SearchTakesFirstPlan | framework/mvc/trie_router.go:112-159 | for every trie and every request the backtracking search takes the first reading, literal before parameter before wildcard, that leads to a handler, and fails exactly when none does |
| TrieTable.PrecedesAntisym | framework/mvc/trie_router.go:123-156 | the preference of readings has no ties |
| TrieRoutes.GrownAt | framework/mvc/trie_router.go:54-88 | the loop of AddRoute creates exactly the missing prefixes and leaves existing nodes, with their names, alone |
| TrieRoutes.TableHoldsRoutes | framework/mvc/trie_router.go:41-92 | after any registrations the nodes are the prefixes of the patterns, each named by the first route through it, holding the chain of the last route that ends in it |
| TriePatterns.PatternLeads | framework/mvc/trie_router.go:112-159 | a registered pattern that covers the request is a reading that leads to its handler |
| TriePatterns.LeadsToPattern | framework/mvc/trie_router.go:112-159 | a reading that leads somewhere is that of a pattern covering the request |
| TriePatterns.ReadingBinds | framework/mvc/trie_router.go:131-156 | along a pattern the parameters are bound left to right, the wildcard to the joined rest |
| TriePatterns.SearchIsBestPattern | framework/mvc/trie_router.go:101-159 | Match returns the chain and the bindings of the best registered pattern that covers the request, and nothing exactly when none covers it |
| TriePatterns.PreferredIsAntisymmetric | framework/mvc/trie_router.go:112-159 | the best pattern is unique |
| TriePatterns.ChainAtRegistered | framework/mvc/trie_router.go:90-91 | the candidates are exactly the keys of registered routes |
| TriePatterns.BareColonIsNotBound | framework/mvc/trie_router.go:123-128 | a bare ":" in the request reaches the parameter node with nothing bound |
| TriePromise.TrapIsFound | framework/mvc/trie_router.go:123-146 | a pattern with a special key meets a bare ":" or "*" of the request as a literal, and its name stays unbound |
| TriePromise.KeptIffOrdinary | framework/mvc/trie_router.go:101-159 | a request is answered by the best pattern, for every list of registered routes, if and only if none of its segments is a bare ":" or "*" |
| TrieRouter.TrieRouter.AddRoute | framework/mvc/trie_router.go:41-92 | the linked nodes become those of the longer list of routes, with the middlewares of the moment in front of the handler |
| TrieRouter.TrieRouter.Walk | framework/mvc/trie_router.go:54-88 | the loop walks and extends the linked nodes along the pattern, skipping empty segments |
| TrieRouter.TrieRouter.Child | framework/mvc/trie_router.go:60-87 | finds a child or links a new one, keeping a tree that shows the table |
| TrieRouter.TrieRouter.MatchRecursive | framework/mvc/trie_router.go:112-159 | the recursion over linked nodes computes the search of the table |
| TrieRouter.TrieRouter.Match | framework/mvc/trie_router.go:101-109 | the answer is the search over the registered routes |
| TrieRouter.TrieRouter.Use | framework/mvc/trie_router.go:95-97 | appends middlewares and changes nothing else |
| TrieWrapper.StaticIffStaticKeys | framework/mvc/trie_router.go:180 | a pattern goes to the hash table exactly when no key of its path holds ":" or "*" |
| TrieWrapper.SpecialChains | framework/mvc/trie_router.go:178-195 | where a key is special, one trie of all routes holds what the trie of dynamic routes holds |
| TrieWrapper.SameSearch | framework/mvc/trie_router.go:203-213 | a search that meets no static route answers the same in both tries |
| TrieWrapper.LiteralWins | framework/mvc/trie_router.go:123-128 | a handler at the end of the literal path is found first, with nothing bound |
| TrieWrapper.ShortcutIsFaithfulIff | framework/mvc/trie_router.go:178-213 | for any registrations and any request path, hash table plus trie answer as one trie of all routes does, with the same chain and parameters, if and only if the path is not static or its entry in the table is the chain registered last for its segments |
| TrieWrapper.CanonicalShortcutIff | framework/mvc/trie_router.go:178-213 | corollary: where static patterns are canonical, the only exceptions are static routes requested non-canonically |
| TrieWrapper.RootOnlyInHashTable | framework/mvc/trie_router.go:203-213 | the root pattern is answered by the hash table and by no trie |
| TrieWrapper.TrieRouterWrapper.AddRoute | framework/mvc/trie_router.go:178-195 | a registration goes to the hash table or to the trie |
| TrieWrapper.TrieRouterWrapper.Match | framework/mvc/trie_router.go:203-213 | the hash table is asked first, then the trie |
| RadixRoutes.TableMirrors | framework/radixtree/radixtree.go:50-95 | after any registrations the tree has the nodes, names and handlers of a trie of its patterns, except that catch-all nodes hold none |
| RadixRoutes.SameKeys | framework/radixtree/radixtree.go:50-95 | a well-formed pattern has the same keys and parameter names in both trees |
| RadixRoutes.WithinTrie | framework/radixtree/radixtree.go:125-181 | what the greedy search finds, the backtracking search finds with the same parameters |
| RadixRoutes.RadixAgreesWithTrie | framework/radixtree/radixtree.go:98-122 | whenever Get answers, from the cache or from the tree, the trie router with its hash table gives the same chain and parameters |
| RadixAgreement.AgreesIff | framework/radixtree/radixtree.go:98-122 | this agreement holds for all well-formed registrations if and only if the request has no bare ":" and no final bare "*" |
| RadixRoutes.RadixAnswersIff | framework/radixtree/radixtree.go:125-181 | for any registrations and any request, the tree answers if and only if a registered pattern without wildcard covers the request and never takes a parameter where another pattern goes on literally |
| RadixRoutes.FindsAllWhenApart | framework/radixtree/radixtree.go:142-161 | if no node has both literal and parameter children, every pattern without wildcard that covers a request is found |
| RadixRoutes.GreedyMisses | framework/radixtree/radixtree.go:142-147 | "/a/x" is covered by "/:id/x", found by the trie, and missed because of "/a/:z/q" |
| RadixTree.RadixTree.Add | framework/radixtree/radixtree.go:33-47 | a static pattern changes only the cache, a dynamic one only the tree |
| RadixTree.RadixTree.Insert | framework/radixtree/radixtree.go:50-95 | the loop over the segments extends the linked nodes to those of the longer list of registrations, stopping at the first wildcard, which gets the bare chain |
| RadixTree.RadixTree.SearchFrom | framework/radixtree/radixtree.go:125-181 | the recursion over linked nodes computes the greedy search |
| RadixTree.RadixTree.SearchParam | framework/radixtree/radixtree.go:150-161 | the parameter loop answers as the search below the parameter child |
| RadixTree.RadixTree.SearchRest | framework/radixtree/radixtree.go:164-178 | the catch-all loop answers only from a map of methods |
| RadixTree.RadixTree.Get | framework/radixtree/radixtree.go:98-122 | the cache first, then the greedy search |
| RadixTree.CatchAllStaysEmpty | framework/radixtree/radixtree.go:64-73 | no registration ever puts a method map into a catch-all node |
| RadixTree.Node.GetChild | framework/radixtree/node.go:47-54 | the loop finds a static child with this path, and null exactly when there is none |
| RadixTree.Node.GetParamChild | framework/radixtree/node.go:57-64 | the loop finds a parameter child, and null exactly when there is none |
| RadixTree.Node.GetCatchAllChild | framework/radixtree/node.go:67-74 | the loop finds a catch-all child, and null exactly when there is none |
| Paths.JoinSplit | framework/mvc/trie_router.go:51 | joining the segments of a path gives the path back |
| Paths.SplitJoin | framework/mvc/trie_router.go:150 | splitting joined segments gives the segments back |
| Paths.TrimTakesSlashes | framework/mvc/trie_router.go:105 | trimming takes away all slashes at both ends and nothing else |
| Paths.SlashesAroundDoNotCount | framework/mvc/trie_router.go:105 | any number of slashes around a canonical path leaves its segments as they are |
| Paths.SegmentsOfCanonical | framework/mvc/trie_router.go:105 | a canonical path is read as exactly its segments |
| TokenBucket.RateBound | framework/limiter/limiter.go:51-71 | in every run the grants of any closed interval are at most the burst plus what the interval earns |
| TokenBucket.GrantPotential | framework/limiter/limiter.go:51-71 | tokens in hand plus grants since s never exceed burst plus earnings since s |
| TokenBucket.DecisionIsExact | framework/limiter/limiter.go:51-71 | a request is granted if and only if no interval that ends with it, beginning with it or an earlier request, then gets more than the burst and what is earned in it |
| TokenBucket.Simulation | framework/limiter/distributed_limiter.go:86-121 | when an idle interval earns the burst, the stored hash always equals the in-memory bucket |
| TokenBucket.ExpiryIsInvisible | framework/limiter/distributed_limiter.go:86-121 | then every run of the script answers as the in-memory limiter |
| TokenBucket.ExpiryShows | framework/limiter/distributed_limiter.go:100-118 | otherwise a run in which the two answer differently |
| TokenBucket.RefinesIff | framework/limiter/distributed_limiter.go:86-121 | script and in-memory limiter answer alike in all runs if and only if burst is at most rate times the interval in whole seconds |
| TokenBucket.OptionRefinesIff | framework/limiter/distributed_limiter.go:58-121 | in terms of the interval option: if and only if some whole number of seconds within it earns the burst |
| TokenBucket.TokenBucketLimiter.AllowN | framework/limiter/limiter.go:51-71 | one refill and one take, with its answer |
| TokenBucket.DistributedLimiter.AllowN | framework/limiter/distributed_limiter.go:82-131 | one execution of the script, expiry included |
| LeakyBucket.NeverBelowIdeal | framework/limiter/limiter.go:118-126 | truncating each leak never brings the level below that of a continuously leaking bucket with the same grants |
| LeakyBucket.CloseToIdeal | framework/limiter/limiter.go:118-126 | each call keeps at most one unit more than the continuously leaking bucket |
| LeakyBucket.RefusalIsJustified | framework/limiter/limiter.go:119-134 | a refused request would have overfilled the continuously leaking bucket, but for one unit for each call |
| LeakyBucket.RateBound | framework/limiter/limiter.go:114-135 | in every run the grants of any closed interval are at most the capacity plus what leaks in it |
| LeakyBucket.FullStaysFull | framework/limiter/limiter.go:119-126 | called again before a whole unit has leaked, a full bucket stays full however often that happens |
| LeakyBucket.RefusedForeverIff | framework/limiter/limiter.go:119-134 | after a call that fills the bucket, all later calls for one unit are refused if and only if rate times each gap is less than one unit |
| LeakyBucket.PollingIff | framework/limiter/limiter.go:143-151 | polling a full bucket at a fixed gap is refused every time if and only if rate times the gap is less than one unit, for any number of polls |
| LeakyBucket.LeakyBucketLimiter.AllowN | framework/limiter/limiter.go:114-135 | one leak and one pour, with its answer |
| WindowLimiters.PruningIsInvisible | framework/limiter/limiter.go:183-190 | pruning forgets nothing that a later call asks for |
| WindowLimiters.DecisionIsExact | framework/limiter/limiter.go:176-201 | a call is granted if and only if its units and those granted in the window that ends now are together at most the limit |
| WindowLimiters.HistoryIsGranted | framework/limiter/limiter.go:192-197 | a granted request is as many entries as it has units |
| WindowLimiters.SlidingBound | framework/limiter/limiter.go:176-201 | no half-open interval of one window's length is granted more units than the limit |
| WindowLimiters.SlidingWindowLimiter.AllowN | framework/limiter/limiter.go:176-201 | the pruning and appending loops do one slide |
| WindowLimiters.FixedBound | framework/limiter/limiter.go:244-263 | no closed interval of one window's length is granted more than twice the limit |
| WindowLimiters.RefusalIsJustified | framework/limiter/limiter.go:244-263 | a call is refused only if the units granted in the window's length that ends now leave no room for it |
| WindowLimiters.FixedBoundIsTight | framework/limiter/limiter.go:244-263 | twice the limit is reached for every window above zero |
| WindowLimiters.LimitHoldsIff | framework/limiter/limiter.go:244-263 | the limit itself holds for every interval of one window's length, in all runs, if and only if limit or window is zero |
| WindowLimiters.FixedWindowLimiter.AllowN | framework/limiter/limiter.go:244-263 | one step of the window, with its answer |
| SlidingCounter.CountersAreExact | framework/limiter/distributed_limiter.go:344-371 | with a dividing precision every counter that can still be read holds exactly what its bucket was granted |
| SlidingCounter.DecisionIsExact | framework/limiter/distributed_limiter.go:344-371 | then a request is granted if and only if its units and those granted in the buckets of the window that ends with its own are together at most the rate |
| SlidingCounter.WindowBound | framework/limiter/distributed_limiter.go:344-371 | then any window's worth of consecutive buckets is granted at most the rate, in every run |
| SlidingCounter.IntervalBound | framework/limiter/distributed_limiter.go:298-328 | hence so is any closed interval one precision step shorter than the window |
| SlidingCounter.UnevenWindowLeaks | framework/limiter/distributed_limiter.go:311-325 | otherwise a run that is granted more |
| SlidingCounter.BoundHoldsIff | framework/limiter/distributed_limiter.go:344-371 | the bound holds in all runs if and only if the precision divides the window |
| SlidingCounter.DistributedRateLimiter.Allow | framework/limiter/distributed_limiter.go:290-336 | one execution of the script for a single request, which is AllowN(1) |
| SlidingCounter.DistributedRateLimiter.AllowN | framework/limiter/distributed_limiter.go:339-379 | one execution of the script |
| Middleware.Context.Next | framework/mvc/context.go:85-91 | with re-entrant handlers, runs exactly the chain behind the current index, as the index-free meaning of the chain says, and leaves no index at which anything could start again |
| Middleware.Context.RunHandler | framework/mvc/context.go:88 | one handler with any mixture of work, Next and Abort |
| Middleware.Context.Abort | framework/mvc/context.go:95-97 | sets the index past the chain |
| Middleware.Context.IsAborted | framework/mvc/context.go:102-104 | an Abort is always seen, and the only other cause of a true answer is an index counted up by calls of Next and finished handlers |
| Middleware.ChainStarts | framework/mvc/context.go:85-97 | the handlers that start are the first ones in order, each once, up to the first that aborts before passing on |
| Middleware.AllRunOnce | framework/mvc/context.go:85-91 | without Abort every handler runs exactly once, however often Next is called |
| ChainSteps.LogIsPrefix | framework/mvc/context.go:85-97 | after any number of steps the log so far, followed by what the stack still owes, is the meaning of the chain |
| ChainSteps.ManageableRunsAsChain | framework/mvc/context.go:85-97 | chains of at most abortIndex + 1 handlers, and all in which no handler aborts, return with exactly the log that the index-free meaning says |
| ChainSteps.RunsAsChainIff | framework/mvc/context.go:43-97 | all chains of n handlers return with that log if and only if n is at most 16384, which is abortIndex + 1 |
| ChainSteps.AbortIsFinal | framework/mvc/context.go:43-97 | step by step, nothing starts after an Abort in chains of at most abortIndex + 1 handlers |
| ChainSteps.AbortIsFinalIff | framework/mvc/context.go:43-97 | Abort is final for all chains of n handlers if and only if n is at most 16384 |
| ChainSteps.RunKeepsFinal | framework/mvc/context.go:85-91 | without Abort the index, the calls of Next and returns still owed and the handlers ahead always add up to the same number |
| ChainSteps.FalseReportIff | framework/mvc/context.go:85-104 | in a chain without Abort the index never reaches the abort index if and only if handlers and calls of Next are together fewer than 16383 |
| ChainSteps.FalseReport | framework/mvc/context.go:85-104 | a chain of a single handler that only calls Next and is reported as aborted |
| JobQueue.RunKeepsInv | framework/queue/queue.go:163-265 | every interleaving of workers keeps the accounts of all jobs |
| JobQueue.ExactlyOnePlace | framework/queue/queue.go:190-265 | each pushed job is in exactly one place: one position of the queue, one worker, or gone |
| JobQueue.RetryBound | framework/queue/queue.go:254-265 | a job is executed at most MaxRetry + 1 times; one given up as failed, at least MaxRetry + 1 less its early releases |
| JobQueue.NeverEarly | framework/queue/queue.go:209-217 | AvailableAt never moves earlier, no execution starts before it, and the execution after the k-th starts at least k times ten seconds after it |
| JobQueue.FirstInFirstOut | framework/queue/database_driver.go:228-252 | in every run, jobs that were never put back stand in the queue in the order in which they were pushed |
| JobQueue.GoneForGood | framework/queue/queue.go:228-265 | a job that is gone keeps its fate and is never executed again |
| JobQueue.ClearEmptiesQueue | framework/queue/database_driver.go:289-296 | Clear drops exactly the queued jobs |
| JobQueue.EarlyReleaseCostsRetries | framework/queue/queue.go:210-213 | a concrete run in which a job that may be retried once is executed a single time |
| JobRetries.GetsAllTries | framework/queue/queue.go:254-265 | a job without retries, or with one retry and no delay, gets all its executions in every run, whatever other jobs are pushed |
| JobRetries.DelayCostsTries | framework/queue/queue.go:209-213 | a delayed job with retries can use them all up before its first execution |
| JobRetries.BackoffCostsTries | framework/queue/queue.go:209-213 | a job with two or more retries can use them up during its first backoff |
| JobRetries.AllTriesIff | framework/queue/queue.go:209-265 | a job pushed with MaxRetry m and delay d that failed was executed m + 1 times, in all runs with any other jobs, if and only if it has no retries, or one retry and no delay |
| QueueProgram.RoundIsARun | framework/queue/queue.go:190-265 | one round of the worker loop is a stretch of a run of the transition system with the same effect on job and queue |
| QueueProgram.Queue.Round | framework/queue/queue.go:198-265 | one round changes the head job and the queue as specified and nothing else |
| QueueProgram.Queue.HandleFailure | framework/queue/queue.go:254-265 | retries with the growing backoff, or deletes |
| QueueProgram.Queue.Release | framework/queue/queue.go:163-167 | counts a retry and puts the job at the end |
| QueueProgram.SyncDriver.Pop | framework/queue/database_driver.go:241-252 | takes the head of the list |
| QueueProgram.SyncDriver.Release | framework/queue/database_driver.go:261-268 | sets AvailableAt again and appends |
| CircuitBreaker.ClosedMeansBelowThreshold | framework/circuit/breaker.go:47-121 | between calls, in every run with cleanups and resets, a breaker that is not open has counted fewer than maxFailures |
| CircuitBreaker.RunFillsBlocks | framework/circuit/breaker.go:47-121 | failing invocations fill blocks of maxFailures that begin a reset timeout apart |
| CircuitBreaker.Throttled | framework/circuit/breaker.go:47-121 | a failing run over a time T invokes the operation at most maxFailures * (1 + T / resetTimeout) times, cleanups included |
| BreakerRuns.RefusedOnlyWhenJustOpened | framework/circuit/breaker.go:51-60 | a call is refused only less than a reset timeout after a failing call that opened the breaker, with nothing let through since |
| BreakerRuns.InvokedAfterPause | framework/circuit/breaker.go:51-60 | in every run, a call entered a reset timeout after the end of all calls before it is let through |
| BreakerRuns.RecoversFully | framework/circuit/breaker.go:84-103 | after a success the next maxFailures calls are let through, although all but the last fail |
| BreakerRuns.CleanupForgives | framework/circuit/breaker.go:112-120 | so they are after a cleanup more than two timeouts after the last call |
| BreakerRuns.ResetRecovers | framework/circuit/breaker.go:155-164 | and after a Reset |
| BreakerRuns.TripsAfterFailures | framework/circuit/breaker.go:91-100 | after maxFailures failures in a row a call is let through if and only if the reset timeout has passed since the last of them ended |
| CircuitBreaker.CircuitBreaker.Call | framework/circuit/breaker.go:47-99 | one call: opening, half-opening, refusing and counting |
| CircuitBreaker.CircuitBreaker.Cleanup | framework/circuit/breaker.go:112-120 | one round of the periodic cleanup clears both counters after twice the timeout without a failure |
| CircuitBreaker.CircuitBreaker.Reset | framework/circuit/breaker.go:155-164 | back to closed with nothing counted |
| ExpiringMap.CleanupIsInvisible | framework/cache/sharded_cache.go:321-332 | removing all sweeps, of any keys at any times, from a run of single and multiple operations changes no reply |
| ExpiringMap.AlikeRunsReplyAlike | framework/cache/sharded_cache.go:81-280 | two stores with the same live entries reply alike to all single and multiple operations from then on |
| ExpiringMap.FoundInParts | framework/cache/sharded_cache.go:173-208 | a multiple read done in any number of parts, in any order and with any overlap, finds what the whole read finds |
| ExpiringMap.DeletedInParts | framework/cache/sharded_cache.go:255-280 | a multiple deletion done in any such parts, each at its own time, is the whole deletion |
| ExpiringMap.StoredInParts | framework/cache/sharded_cache.go:211-252 | a multiple store done in any such parts is the whole store |
| ExpiringMap.TraceIsARun | framework/cache/sharded_cache.go:173-332 | what one caller and all others do in between is a run of all their operations |
| EntryLifetime.SetLives | framework/cache/sharded_cache.go:81-116 | after Set with a ttl at time t, Get and Has at a later time find the value if and only if ttl <= 0 or the time is before t + ttl, whatever calls and sweeps that leave the key alone come in between |
| EntryLifetime.SetMultiLives | framework/cache/sharded_cache.go:211-252 | the same for every item of SetMulti |
| EntryLifetime.GetOrSetLives | framework/cache/sharded_cache.go:148-170 | the same for the value that a GetOrSet stores when it finds none |
| EntryLifetime.GetOrSetFinds | framework/cache/sharded_cache.go:148-170 | where Get finds a value, GetOrSet returns it and changes nothing |
| EntryLifetime.DeletedIsGone | framework/cache/sharded_cache.go:119-126 | what was deleted is not found until it is written again |
| EntryLifetime.OtherKeysStay | framework/cache/sharded_cache.go:81-280 | a call leaves the answers of all keys that it does not write or remove |
| EntryLifetime.GetMultiIsManyGets | framework/cache/sharded_cache.go:173-208 | GetMulti returns for each key what Get returns |
| EntryLifetime.SweepKeepsLiving | framework/cache/sharded_cache.go:321-332 | a sweep keeps exactly the entries that Has still reports |
| ShardedCache.ShardedCache.Others | framework/cache/sharded_cache.go:81-280 | any calls of others between two moments of one call act as operations on the one map |
| ShardedCache.ShardedCache.Get | framework/cache/sharded_cache.go:81-93 | replies as one map |
| ShardedCache.ShardedCache.Has | framework/cache/sharded_cache.go:129-144 | replies as one map |
| ShardedCache.ShardedCache.Set | framework/cache/sharded_cache.go:96-116 | changes the shards as one map changes |
| ShardedCache.ShardedCache.Delete | framework/cache/sharded_cache.go:119-126 | changes the shards as one map changes |
| ShardedCache.ShardedCache.GetOrSet | framework/cache/sharded_cache.go:148-170 | replies and changes the shards as one map does |
| ShardedCache.ShardedCache.GetMulti | framework/cache/sharded_cache.go:173-208 | reads group by group in any order with any calls of others in between; the result is what these reads find on the one map, and without other calls exactly the live requested keys |
| ShardedCache.ShardedCache.SetMulti | framework/cache/sharded_cache.go:211-252 | stores one group per shard, each at one moment with its own clock reading, in any order, with any calls of others in between |
| ShardedCache.ShardedCache.DeleteMulti | framework/cache/sharded_cache.go:255-280 | deletes one group per shard, each at one moment, in any order, with any calls of others in between |
| ShardedCache.ShardedCache.Count | framework/cache/sharded_cache.go:292-301 | the shard sizes add up to the size of the one map |
| ShardedCache.ShardedCache.Cleanup | framework/cache/sharded_cache.go:321-332 | sweeps shard after shard, each at its own time, with any calls of others in between, as such sweeps of the one map; alone and at one moment, it removes exactly the expired entries |

## Left out

- RedLock.MutualExclusion: clock drift, server restarts and clients with different server lists are assumed away.
- RedLockProgram.Client.Lock: that a majority is enough is stated for calls during which nobody else acts; other objects can always be faster.
- WatchdogLock.GuardedIffTimely: assumes that direct extensions have a positive duration; the watchdog's own always have.
- WatchdogRenewal.SafeIffTtlAboveInterval: assumes that extensions set at least the object's ttl, as the watchdog's do.
- Two goroutines that use the same lock object, ttl 0 (a key that never expires), `LockWithContextTimeout` and `WithLock`.
- LeakyBucket.RateBound: for rates, capacities and request sizes that are not negative.
- WindowLimiters.FixedBound: for request sizes and windows that are not negative.
- WindowLimiters.SlidingBound: for request sizes that are not negative.
- SlidingCounter.BoundHoldsIff: for request sizes that are not negative, and windows and precisions of whole positive milliseconds; the script divides by a precision below one millisecond as by zero.
- Limiters on Redis errors: both distributed limiters let every request through when Redis fails.
- `WaitN`, `Reserve`, `GetTokens`, `GetState` of the limiters: polling and reporting around `AllowN`.
- Floating-point rounding of tokens and times (a clock of any resolution is covered), and integer overflow.
- HashRing.ConsistentHashBalancer.Select: the key is the printed current time and is a parameter here.
- The round robin, random and least-connection balancers: single counters or no state.
- TriePatterns.SearchIsBestPattern: for requests without a segment that is a bare ":" or "*"; `KeptIffOrdinary` shows that these are exactly the ones.
- TriePatterns.LeadsToPattern: for the same requests.
- TrieWrapper.CanonicalShortcutIff: for static patterns written canonically; `ShortcutIsFaithfulIff` has no condition.
- RadixRoutes.SameKeys: for patterns without empty segments and with a wildcard only at the end; `TableMirrors` describes the tree of any patterns by its own list.
- RadixRoutes.WithinTrie: for such patterns, and for requests without a bare ":" or a final bare "*".
- RadixAgreement.AgreesIff: for such patterns.
- RadixRoutes.RadixAgreesWithTrie: for patterns without empty segments and with a wildcard only at the end; `AgreesIff` shows that its requests are exactly the ones.
- `RadixTree.Size`, `RadixTree.ClearCache`, the priority field and the unused `insertChild` and `insertStatic`.
- RadixTree.RadixTree.SearchFrom: calls `GetChild` for the first loop of the search, which is the same loop.
- The static-file handlers and the old route array of the production router.
- Middleware.Context.Next: for chains of at most abortIndex + 1 handlers, and longer ones in which no handler aborts; for the others `RunsAsChainIff` shows that Next need not return. A panicking handler is not modelled.
- Middleware.Context.RunHandler: for the same chains.
- Handlers are straight programs: a handler starts at most once per request, so each terminating behaviour is one program.
- The Redis, RabbitMQ and SQL queue drivers, job priorities (the in-memory driver ignores them) and stopping the workers.
- JobQueue.RetryBound: handlers that change the job's own retry fields are not modelled.
- ShardedCache.ShardedCache.Set: the size limit and its eviction are not modelled, only the unbounded cache.
- ShardedCache.ShardedCache.GetMulti: a key named twice is read at one time.
- ShardedCache.ShardedCache.Count: counts expired entries until they are swept, so it is not among the operations that sweeps leave alone.
- The statistics of the breaker beyond its request counter.
