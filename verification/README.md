# Verified models of the platform's stateful algorithms

The repository keeps a set of small stateful algorithms beside its HTTP services: two index structures, two
optimisation heuristics, a role hierarchy, and the state machines that guard traffic, locks, events and books.
This project models them in Dafny and proves what they promise over every input and every run.

| file | models |
|---|---|
| `RadixTree.dfy`, `RadixTrieRoutingIndex.dfy` | the compressed radix trie: on values, and as the node objects that are rewritten in place |
| `BTree.dfy`, `BTreeAnswers.dfy`, `BPlusTreeDatabaseIndex.dfy` | the multi-way search index with proactive splits and linked leaves: on values, what its search answers after splits, and as node objects |
| `HierarchicalRolePermissionEvaluator.dfy` | the traversal of the role graph and the access decision |
| `RouteOptimization.dfy`, `BinPacking.dfy` | 2-opt route improvement and first-fit-decreasing bin packing |
| `TokenBucketRateLimiterEngine.dfy`, `RateLimiter.dfy` | the token bucket and the fixed-window limiter |
| `Outbox.dfy`, `FinancialLedgerTransactionEventOutboxHandler.dfy` | the event outbox with retries and dead letters: on values, and as message objects |
| `DistributedLeaseLockManager.dfy`, `CircuitBreaker.dfy` | the lease lock with fencing tokens and the circuit breaker |
| `DeferredRevenueAmortizationScheduleEngine.dfy`, `GeneralLedgerChartOfAccountsMatrix.dfy` | the amortisation schedule and the ledger |
| `HighThroughputDisruptorRingBuffer.dfy`, `MatrixOperationsLibrary.dfy` | the masked ring buffer and the matrix operations |
| `Options.dfy` | the optional value that stands for `undefined` and `null` |

Each component has two layers. A class or method follows the source statement by statement, with the same
fields, loops and branches, and is proved to compute a function of the old state. Lemmas then prove what that
function promises. Where the promise is about whole runs, a `Run` is the sequence of states that arbitrary calls
at non-decreasing times lead through, and the lemmas are about every run; steps are functions, so every
sequence of calls has one. `dafny verify dfyconfig.toml` checks everything.

Conventions: the clock is an argument of each call. Money is in cents, token counts in thousandths, times
in milliseconds, volumes, weights and distances are reals, so the arithmetic is exact. Keys of the search index
are integers, the geographic distance is an arbitrary function, and the outcome of every event delivery is an
arbitrary function of subscriber, message and attempt.

## Findings

The models follow the code. What the proofs say beyond, or against, its descriptions:

- The search index is called a B+ tree, but a split moves the median key out of the leaf while at least `order`
  values go to the right leaf. For distinct keys `search` is right exactly until the first split
  (`BTree.SearchIsCorrectUntilFirstSplit`); from then on it misses some keys and, for orders from 2 on, answers
  others with the value of another key (`BTreeAnswers.SomeKeyReadsAnother`,
  `BTreeAnswers.SearchIsTruthfulUntilFirstSplit`): what it answers is the value that stands in the leaf at the place
  of the key (`BTree.LeafAnswers`), and a new key is always found right after its insert (`BTree.LastInsertIsFound`).
  A key that is inserted again keeps its first value up to the first split (`BTree.FirstInsertAnswers`); if the second
  insert promotes the key, it is found when the root is split and hidden when another node is
  (`BTree.PromotedTwinIsFound`, `BTree.PromotedTwinIsHidden`). The invariants of keys, values, depths and links hold
  throughout.
- The outbox gives a message up at its fifth failure, unless a subscriber rejects with null or undefined: then the
  error handler itself throws, the flush ends without a result, and the message stays pending
  (`Outbox.NothingForever`). Each promise has its exact condition: that no message fails five times and the fifth
  time with nothing (`Outbox.SoundIffExplained`, `Outbox.DrainsIffExplained`, `Outbox.AtMostFiveIffExplained`), or
  that none of its first five failures is with nothing (`Outbox.RetriesIffAllExplained`).
- The lease lock promises mutual exclusion. It keeps it as long as no call renews an unexpired lease for less time
  than is left of it (`LeaseLock.MutualExclusion`), so with one fixed duration always
  (`LeaseLock.MutualExclusionWithFixedDuration`). After any call that does, two more calls lead to two owners with
  live grants (`LeaseLock.ShorteningAdmitsTwo`); the condition is exact (`LeaseLock.ExclusiveIffNoneShortens`).
- The seeded ledger is out of balance by 2,500,000, and no posting can change that (`Ledger.NeverBalances`).
- The ring buffer accepts any capacity, but keeps its window exactly for powers of two
  (`RingBuffer.WindowIsKeptIffPowerOfTwo`).
- First fit decreasing needs at most 3N-2 bins where N suffice (`BinPacking.PackingRatio`). An item over a limit
  gets a bin all the same: the bins respect both limits exactly when every item alone does
  (`BinPacking.LimitsHoldIffItemsFit`).
- A closed interval of k window lengths of the limiter admits at most (k+1) times the limit less one, twice the
  limit less one for one window (`WindowLimiter.WindowLengthsAreBounded`). For every length the exact maximum is
  known and reached (`WindowLimiter.IntervalIsBounded`, `WindowLimiter.BoundIsReached`).
- A contract with a negative total is recognised at once in the first month, and the monthly rate is recognised again
  in the months after it, until the last one takes that back (`Amortization.BalanceClosedForm`).
- The retry hint of the token bucket is always one second (`TokenBucket.HintIsOneSecond`).

## Model

| member | source | states |
|---|---|---|
| `RadixTree.CommonPrefixLength` | packages/common/src/trees/RadixTrieRoutingIndex.ts:98-105 | the length of the longest common prefix: the two agree up to it and, if both go on, differ there |
| `RadixTree.SplitNodeCanonical` | packages/common/src/trees/RadixTrieRoutingIndex.ts:34-61 | cutting a node at a real divergence gives a canonical node that is marked or has two children, filed under the right characters |
| `RadixTree.InsertCanonical` | packages/common/src/trees/RadixTrieRoutingIndex.ts:19-80 | every insert, by whichever of descend, split-at-end, split-with-branch, append or mark, keeps the trie canonical: prefixes non-empty, children filed under their first character, unmarked nodes branching |
| `RadixTree.LookupAfterSplit` | packages/common/src/trees/RadixTrieRoutingIndex.ts:34-61 | cutting a node for a key changes the lookup of that key and of no other |
| `RadixTree.LookupAfterInsert` | packages/common/src/trees/RadixTrieRoutingIndex.ts:19-96 | after an insert the key (also the empty one) has the new value and every other key the old one |
| `RadixTree.KeysAreFound` | packages/common/src/trees/RadixTrieRoutingIndex.ts:82-96 | the keys that can be read off the tree are exactly those that a lookup finds |
| `RadixTree.LookupRefinesMap` | packages/common/src/trees/RadixTrieRoutingIndex.ts:82-96 | on canonical tries a lookup is the lookup in a finite map |
| `RadixTree.InsertRefinesMap` | packages/common/src/trees/RadixTrieRoutingIndex.ts:19-80 | an insert is the update of that map |
| `RadixTree.SomeKey` | packages/common/src/trees/RadixTrieRoutingIndex.ts:19-80 | no subtree is dead: under every non-root node of a canonical trie there is a key |
| `RadixTree.SameLookupsSameTree` | packages/common/src/trees/RadixTrieRoutingIndex.ts:19-96 | canonical tries that answer all lookups alike are the same tree |
| `RadixTree.CanonicalFormIsUnique` | packages/common/src/trees/RadixTrieRoutingIndex.ts:19-96 | two canonical tries are equal exactly when they hold the same map |
| `RadixTree.InsertAllRefinesMap` | packages/common/src/trees/RadixTrieRoutingIndex.ts:19-80 | for every sequence of inserts the trie stays canonical and holds the map that the same updates build |
| `RadixTree.CanonicalIffReachable` | packages/common/src/trees/RadixTrieRoutingIndex.ts:12-80 | a trie can be built by inserts from the empty one exactly when it is canonical |
| `RadixTree.BuildOrderIsInvisible` | packages/common/src/trees/RadixTrieRoutingIndex.ts:19-80 | two sequences of inserts build the same trie exactly when they build the same map |
| `RadixTree.InsertsCommute` | packages/common/src/trees/RadixTrieRoutingIndex.ts:19-80 | inserts of different keys commute, down to the structure of the trie |
| `RadixTree.AtMostTwoNodesPerKey` | packages/common/src/trees/RadixTrieRoutingIndex.ts:12-80 | a reachable trie with K keys, K at least 1, has at most 2K nodes |
| `RadixTrieIndex.RadixTrieRoutingIndex.constructor` | packages/common/src/trees/RadixTrieRoutingIndex.ts:12-17 | the new index is the empty trie, in nodes of its own |
| `RadixTrieIndex.RadixTrieRoutingIndex.GetCommonPrefixLength` | packages/common/src/trees/RadixTrieRoutingIndex.ts:98-105 | the loop returns the length of the longest common prefix |
| `RadixTrieIndex.RadixTrieRoutingIndex.Lookup` | packages/common/src/trees/RadixTrieRoutingIndex.ts:82-96 | the walk over the node objects returns what the finite map of the trie holds |
| `RadixTrieIndex.RadixTrieRoutingIndex.FindMatch` | packages/common/src/trees/RadixTrieRoutingIndex.ts:24-33 | scanning the children in any order finds the one child that shares a prefix with the key, or none, and never two |
| `RadixTrieIndex.RadixTrieRoutingIndex.CutNode` | packages/common/src/trees/RadixTrieRoutingIndex.ts:34-61 | the node is cut in place: the new lower node takes the old rest, value and children, the old object keeps the common part, and either is marked or gets the new leaf |
| `RadixTrieIndex.RadixTrieRoutingIndex.SplitChild` | packages/common/src/trees/RadixTrieRoutingIndex.ts:34-61 | after the cut all node objects again make up the tree with the key inserted, and the only new nodes are fresh |
| `RadixTrieIndex.RadixTrieRoutingIndex.InsertFrom` | packages/common/src/trees/RadixTrieRoutingIndex.ts:19-80 | the whole walk from the root: it terminates because the remaining key shrinks, and leaves the objects as the tree with the key inserted |
| `RadixTrieIndex.RadixTrieRoutingIndex.Insert` | packages/common/src/trees/RadixTrieRoutingIndex.ts:19-80 | the in-place insert refines the insert on trees, and so the update of the map |
| `BTree.SortedInsertKeeps` | packages/common/src/trees/BPlusTreeDatabaseIndex.ts:61-66 | the insertion into a leaf keeps sorted keys sorted, and strictly sorted ones strictly so for a new key |
| `BTree.SplitChildWellFormed` | packages/common/src/trees/BPlusTreeDatabaseIndex.ts:83-98 | splitting a full child of a node with room keeps all key counts, child counts, leaf depths and value counts within bounds, for every order |
| `BTree.SplitKeepsInOrder` | packages/common/src/trees/BPlusTreeDatabaseIndex.ts:83-98 | a split changes neither the in-order sequence of keys nor any key in it |
| `BTree.SplitKeepsValues` | packages/common/src/trees/BPlusTreeDatabaseIndex.ts:89-96 | a split changes no value and not their left-to-right order |
| `BTree.InsertNonFull` | packages/common/src/trees/BPlusTreeDatabaseIndex.ts:60-81 | an insert into a subtree in which it finds room keeps the subtree well formed at its height |
| `BTree.MakeRoom` | packages/common/src/trees/BPlusTreeDatabaseIndex.ts:69-78 | the child chosen after a proactive split has room and its node is well formed |
| `BTree.MakeRoomInOrder` | packages/common/src/trees/BPlusTreeDatabaseIndex.ts:69-78 | choosing the child, also after a split moved a key up, keeps the in-order sequence and separates the key correctly |
| `BTree.InsertNonFullInOrder` | packages/common/src/trees/BPlusTreeDatabaseIndex.ts:60-81 | the in-order keys become the sorted insertion of the key into the in-order keys |
| `BTree.InsertNonFullValues` | packages/common/src/trees/BPlusTreeDatabaseIndex.ts:60-81 | one value is added at one place, and the others keep their order |
| `BTree.Raise` | packages/common/src/trees/BPlusTreeDatabaseIndex.ts:49-53 | a full root is put under a new one with one key, which is one level higher and well formed and in which every key finds room, even where one key fills a node |
| `BTree.Insert` | packages/common/src/trees/BPlusTreeDatabaseIndex.ts:47-58 | for every order, an insert leaves a well-formed root: leaves at one depth, every other node with order-1 to 2*order-1 keys, inner nodes with one more child than keys, leaves with at least as many values as keys |
| `BTree.InsertInOrder` | packages/common/src/trees/BPlusTreeDatabaseIndex.ts:47-58 | over the whole tree the in-order keys get the new key at its sorted place, duplicates allowed |
| `BTree.InsertValues` | packages/common/src/trees/BPlusTreeDatabaseIndex.ts:47-58 | over the whole tree exactly the new value is added, at one place between the others |
| `BTree.SubtreeSize` | packages/common/src/trees/BPlusTreeDatabaseIndex.ts:47-98 | a non-root subtree of height h holds at least order^(h+1)-1 keys |
| `BTree.TreeSize` | packages/common/src/trees/BPlusTreeDatabaseIndex.ts:47-98 | a tree of height h, h at least 1, holds at least 2*order^h-1 keys |
| `BTree.SearchFindsLeafKeys` | packages/common/src/trees/BPlusTreeDatabaseIndex.ts:29-45 | for distinct keys a search stays in bounds and finds something exactly for the keys that sit in a leaf |
| `BTree.InnerKeysAreNotInLeaves` | packages/common/src/trees/BPlusTreeDatabaseIndex.ts:83-98 | a key that a split has moved up is in no leaf, so a search does not find it |
| `BTree.LeafAnswers` | packages/common/src/trees/BPlusTreeDatabaseIndex.ts:29-45 | for distinct keys, and however often leaves have been split, search answers the i-th key of every leaf with the i-th value of that leaf |
| `BTree.NewKeyIsFound` | packages/common/src/trees/BPlusTreeDatabaseIndex.ts:29-81 | in every tree with room, duplicates included, a key that is new is found right after its insert, with its own value |
| `BTree.PromotedTwinIsHidden` | packages/common/src/trees/BPlusTreeDatabaseIndex.ts:69-79 | a key that is inserted again while a split below the root promotes it goes to its own left, and search does not find it |
| `BTree.PromotedTwinIsFound` | packages/common/src/trees/BPlusTreeDatabaseIndex.ts:47-58 | if the split is that of the root it goes to the right, and is found with the second value |
| `BTree.ReachableIndex` | packages/common/src/trees/BPlusTreeDatabaseIndex.ts:20-98 | for every sequence of inserts: well-formed root, sorted in-order keys, exactly the inserted keys over all nodes and exactly the inserted values, and at least 2*order^h-1 entries for a height h of at least 1 |
| `BTree.KeysAreTheInserted` | packages/common/src/trees/BPlusTreeDatabaseIndex.ts:47-98 | a key is somewhere in the tree exactly when it was inserted |
| `BTree.LastInsertIsFound` | packages/common/src/trees/BPlusTreeDatabaseIndex.ts:29-58 | after every sequence of inserts, a key that is inserted for the first time is found at once, with its own value |
| `BTree.DistinctKeysAreStrict` | packages/common/src/trees/BPlusTreeDatabaseIndex.ts:47-98 | without duplicate inserts the in-order keys are strictly sorted |
| `BTree.FirstInsertAnswers` | packages/common/src/trees/BPlusTreeDatabaseIndex.ts:29-66 | as long as the entries fit into the first leaf, search answers every key, repeated or not, with the value of its first insert, and with nothing if there was none |
| `BTree.SearchIsCorrectUntilFirstSplit` | packages/common/src/trees/BPlusTreeDatabaseIndex.ts:29-98 | for distinct keys, search returns the inserted value of every key exactly when they fit into the first leaf: at most 2*order-1 entries, or any number for order 0, which never splits; from the first split on it is wrong for some key |
| `BTreeAnswers.RightHalfIsLate` | packages/common/src/trees/BPlusTreeDatabaseIndex.ts:86-90 | in the right half of a leaf that has just been split no key has its own value at or before its place |
| `BTreeAnswers.InsertKeepsLate` | packages/common/src/trees/BPlusTreeDatabaseIndex.ts:60-98 | an insert below the root brings no value in front of its key, and keys that stand before their values go on doing so |
| `BTreeAnswers.BuildIsLate` | packages/common/src/trees/BPlusTreeDatabaseIndex.ts:47-98 | so for orders from 2 on, after any inserts from the first split on some key of a leaf stands before its value |
| `BTreeAnswers.LateKeyIsMisread` | packages/common/src/trees/BPlusTreeDatabaseIndex.ts:29-45 | a search for such a key answers with a value that is not its own |
| `BTreeAnswers.SomeKeyReadsAnother` | packages/common/src/trees/BPlusTreeDatabaseIndex.ts:29-98 | for orders from 2 on, from the first split on some inserted key is answered with what was inserted under another key |
| `BTreeAnswers.OrderOneIsTruthful` | packages/common/src/trees/BPlusTreeDatabaseIndex.ts:29-98 | with order 1, where a leaf keeps no key when it is split, search loses keys but answers none with the value of another |
| `BTreeAnswers.SearchIsTruthfulUntilFirstSplit` | packages/common/src/trees/BPlusTreeDatabaseIndex.ts:29-98 | for distinct keys and values, whatever search returns for an inserted key was inserted under it exactly when the entries fit into the first leaf or the order is 1 |
| `BPlusTreeIndex.BPlusTreeDatabaseIndex.constructor` | packages/common/src/trees/BPlusTreeDatabaseIndex.ts:24-27 | the new index has the given order, nodes of its own and, for every order, stands for the empty tree |
| `BPlusTreeIndex.BPlusTreeDatabaseIndex.Search` | packages/common/src/trees/BPlusTreeDatabaseIndex.ts:29-45 | the walk over the node objects computes the search on the tree and stays in bounds |
| `BPlusTreeIndex.BPlusTreeDatabaseIndex.SplitChild` | packages/common/src/trees/BPlusTreeDatabaseIndex.ts:83-98 | the splices on both nodes and the new one, and the relinking of a leaf, field by field |
| `BPlusTreeIndex.BPlusTreeDatabaseIndex.SplitKid` | packages/common/src/trees/BPlusTreeDatabaseIndex.ts:83-98 | after the split the objects make up the split tree, with the next links through all leaves in order |
| `BPlusTreeIndex.BPlusTreeDatabaseIndex.InsertNonFull` | packages/common/src/trees/BPlusTreeDatabaseIndex.ts:60-81 | the recursive in-place insert refines the one on trees and keeps the leaf chain |
| `BPlusTreeIndex.BPlusTreeDatabaseIndex.Raise` | packages/common/src/trees/BPlusTreeDatabaseIndex.ts:50-53 | the new root object over the split old one |
| `BPlusTreeIndex.BPlusTreeDatabaseIndex.Insert` | packages/common/src/trees/BPlusTreeDatabaseIndex.ts:47-58 | the in-place insert refines the insert on trees; the objects stay a tree whose next links run through the leaves from left to right |
| `BPlusTreeIndex.WalkVisitsAllLeaves` | packages/common/src/trees/BPlusTreeDatabaseIndex.ts:91-93 | following the next links from the leftmost leaf visits exactly the leaf nodes, each once, and reads the values of the tree from left to right; then the links end |
| `RoleHierarchy.ClosedContainsReachable` | services/auth-service/src/policies/HierarchicalRolePermissionEvaluator.ts:122-133 | a set of roles that contains the given ones and all parents of its members contains every reachable role |
| `RoleHierarchy.Traversal.TraverseRole` | services/auth-service/src/policies/HierarchicalRolePermissionEvaluator.ts:122-133 | the recursive visit terminates on every role graph, visits only reachable roles, and leaves everything it has visited closed under inheritance and its permissions collected |
| `RoleHierarchy.HierarchicalRolePermissionEvaluator.constructor` | services/auth-service/src/policies/HierarchicalRolePermissionEvaluator.ts:27-87 | the evaluator starts with the six standard roles |
| `RoleHierarchy.HierarchicalRolePermissionEvaluator.RegisterRole` | services/auth-service/src/policies/HierarchicalRolePermissionEvaluator.ts:89-91 | a role is added or replaced and no other role changes |
| `RoleHierarchy.HierarchicalRolePermissionEvaluator.GetEffectivePermissions` | services/auth-service/src/policies/HierarchicalRolePermissionEvaluator.ts:118-137 | the result is exactly the permissions of the registered roles that are reachable from the given ones: cycles, self-inheritance, missing parents and the order of roles do not matter |
| `RoleHierarchy.HierarchicalRolePermissionEvaluator.EvaluateAccess` | services/auth-service/src/policies/HierarchicalRolePermissionEvaluator.ts:93-116 | access is decided by tenant, wildcard, exact permission, resource wildcard and ownership over that union |
| `RoleHierarchy.AccessIsMonotone` | services/auth-service/src/policies/HierarchicalRolePermissionEvaluator.ts:93-137 | more roles for a user never take access away |
| `RoleHierarchy.TenantsAreIsolated` | services/auth-service/src/policies/HierarchicalRolePermissionEvaluator.ts:93-97 | across tenants access takes the role of a super administrator among the given roles, and is then decided as within one |
| `RoleHierarchy.AccessIffCovered` | services/auth-service/src/policies/HierarchicalRolePermissionEvaluator.ts:93-116 | within a tenant, who does not own the resource has access exactly through a reachable registered role with a permission that covers the action: everything, everything on the resource, or the action itself |
| `RoleHierarchy.OwnersReadAndUpdate` | services/auth-service/src/policies/HierarchicalRolePermissionEvaluator.ts:110-113 | owning a resource adds reading and updating, and nothing else |
| `RoleHierarchy.SuperAdminMayDoAll` | services/auth-service/src/policies/HierarchicalRolePermissionEvaluator.ts:27-37 | with the standard roles a super administrator may do everything in every tenant |
| `RoleHierarchy.RegisteringMoreIsMonotone` | services/auth-service/src/policies/HierarchicalRolePermissionEvaluator.ts:89-137 | registering a role, or one with more parents and permissions, never takes access away |
| `RoleHierarchy.InheritedRolesAddNothing` | services/auth-service/src/policies/HierarchicalRolePermissionEvaluator.ts:118-137 | giving a user a role that is already inherited changes no permission |
| `RoleHierarchy.GrantsGrow` | services/auth-service/src/policies/HierarchicalRolePermissionEvaluator.ts:118-137 | grants grow with the given roles and with the role graph |
| `RoleHierarchy.StandardOperationsManager` | services/auth-service/src/policies/HierarchicalRolePermissionEvaluator.ts:39-68 | in the standard roles an operations manager has exactly its own, the dispatcher's and the inventory manager's permissions |
| `RouteOptimization.ComputeTotalRouteDistance` | packages/common/src/utils/mathOptimization.ts:105-111 | the loop returns the sum of the legs |
| `RouteOptimization.CostOfFewStops` | packages/common/src/utils/mathOptimization.ts:105-111 | no stop or one costs nothing, and two cost their distance |
| `RouteOptimization.TwoOptSwap` | packages/common/src/utils/mathOptimization.ts:91-103 | the three loops reverse the stops from i to k and keep the others |
| `RouteOptimization.SwappedIsPermutation` | packages/common/src/utils/mathOptimization.ts:91-103 | a swap of inner stops is a permutation with the same first and last stop |
| `RouteOptimization.SwapExchangesTwoLegs` | packages/common/src/utils/mathOptimization.ts:91-111 | for a symmetric distance a swap replaces exactly two legs, whatever lies between |
| `RouteOptimization.LocallyOptimalByLegs` | packages/common/src/utils/mathOptimization.ts:72-85 | so a route is 2-optimal exactly when no two legs can be exchanged for a shorter pair |
| `RouteOptimization.FirstImprovement` | packages/common/src/utils/mathOptimization.ts:72-85 | one pass finds the first pair (by i, then j) whose reversal saves more than 0.001, or the route is locally optimal |
| `RouteOptimization.SwapsPermute` | packages/common/src/utils/mathOptimization.ts:68-86 | any number of such swaps keeps stops and ends |
| `RouteOptimization.SwapsSave` | packages/common/src/utils/mathOptimization.ts:77-80 | n swaps save more than 0.001 n, which bounds their number by the initial cost |
| `RouteOptimization.CapSuffices` | packages/common/src/utils/mathOptimization.ts:68-86 | an iteration cap that pays for the initial cost never cuts the search short of a local optimum |
| `RouteOptimization.SearchRoute` | packages/common/src/utils/mathOptimization.ts:63-88 | the main loop makes one first improvement after the other, at most maxIterations of them |
| `RouteOptimization.TwoOptOptimization` | packages/common/src/utils/mathOptimization.ts:55-89 | the result is reached by first improvements, is a permutation with fixed ends and its own recomputed distance, and is locally optimal unless the cap stopped the search |
| `BinPacking.SortDescendingSorts` | packages/common/src/utils/mathOptimization.ts:121-125 | the sorting is a permutation by descending volume |
| `BinPacking.SortDescendingIsStable` | packages/common/src/utils/mathOptimization.ts:121-125 | and keeps the order of items of equal volume |
| `BinPacking.FirstFit` | packages/common/src/utils/mathOptimization.ts:133-144 | the first bin with room for an item, or none has room |
| `BinPacking.PlaceItem` | packages/common/src/utils/mathOptimization.ts:130-153 | the loop over the bin objects changes the first bin with room or opens a new one, and no other bin |
| `BinPacking.PackSorted` | packages/common/src/utils/mathOptimization.ts:127-156 | the loop over the sorted items places each of them in turn |
| `BinPacking.Pack3DBins` | packages/common/src/utils/mathOptimization.ts:116-157 | the result is first fit decreasing, told without the steps of the loop; it keeps the items and, for items of non-negative size, all limits |
| `BinPacking.PackingKeepsItems` | packages/common/src/utils/mathOptimization.ts:121-156 | every item is in exactly one bin |
| `BinPacking.RulesOfBoxes` | packages/common/src/utils/mathOptimization.ts:116-137 | an item takes length times width times height, and items may share 85% of that of a bin and its whole weight allowance |
| `BinPacking.PackingIffFirstFitted` | packages/common/src/utils/mathOptimization.ts:127-156 | a packing results from the loop exactly if every item went into the first bin that, with what it had received before, had room, or into a new one if none had, and each bin holds what it received, in order |
| `BinPacking.PackingIffFirstFitDecreasing` | packages/common/src/utils/mathOptimization.ts:116-157 | so the packing is first fit in the order of descending volume in which equal volumes keep their order, and there is no other such packing |
| `BinPacking.PlaceKeepsPacked` | packages/common/src/utils/mathOptimization.ts:130-153 | a placement keeps bin numbers, sums, the limits of bins with two or more items, and that no two bins could be merged |
| `BinPacking.PackingIsPacked` | packages/common/src/utils/mathOptimization.ts:121-156 | so every packing numbers its bins 1 to B, has the right sums, respects 85% of the volume and the weight wherever two items share a bin, and any two bins together exceed a limit |
| `BinPacking.LimitsHoldIffItemsFit` | packages/common/src/utils/mathOptimization.ts:121-156 | for items of non-negative size all bins respect both limits exactly when every item alone does; one that does not gets a bin all the same |
| `BinPacking.OneMeasureIsOverfull` | packages/common/src/utils/mathOptimization.ts:133-153 | among 3N-1 bins of which no two could be merged, N disjoint pairs exceed the limit of one measure |
| `BinPacking.BinsAgainst` | packages/common/src/utils/mathOptimization.ts:130-153 | bins that keep the rules are at most 3N-2 whenever N groups within the limits hold the same items |
| `BinPacking.PackingRatio` | packages/common/src/utils/mathOptimization.ts:116-157 | first fit decreasing uses at most 3N-2 bins whenever some packing within the same limits uses N |
| `TokenBucket.TokenBucketRateLimiterEngine.RuleOf` | services/api-gateway/src/resilience/TokenBucketRateLimiterEngine.ts:18-43 | the three tiers, and the starter rule for every other name |
| `TokenBucket.TokenBucketRateLimiterEngine.CheckRequestAllowance` | services/api-gateway/src/resilience/TokenBucketRateLimiterEngine.ts:42-65 | refill, clip, consume and hint: the new bucket of the key and the verdict; no other bucket changes |
| `TokenBucket.TokensStayInRange` | services/api-gateway/src/resilience/TokenBucketRateLimiterEngine.ts:52-60 | in every run a bucket holds between 0 and the capacity plus burst of its latest call's rule, and was last filled at that call |
| `TokenBucket.WindowIsBounded` | services/api-gateway/src/resilience/TokenBucketRateLimiterEngine.ts:42-65 | between two calls of any run at times s and t, a key is allowed at most capacity + burst + rate*(t-s)/1000 requests, however many keys and tiers are mixed |
| `TokenBucket.AllowedAndLeft` | services/api-gateway/src/resilience/TokenBucketRateLimiterEngine.ts:52-60 | what was allowed in a window and what is left in the bucket never exceed a full bucket and what flowed in |
| `TokenBucket.TokensAccumulate` | services/api-gateway/src/resilience/TokenBucketRateLimiterEngine.ts:52-64 | a polled but refused bucket is as full as one that was left alone |
| `TokenBucket.NextCallAfterRefusals` | services/api-gateway/src/resilience/TokenBucketRateLimiterEngine.ts:52-63 | after refusals the next call is allowed exactly when the elapsed time has refilled one token |
| `TokenBucket.AvailableIsLeast` | services/api-gateway/src/resilience/TokenBucketRateLimiterEngine.ts:48-60 | what a call finds in its bucket is the least, over all calls of the key so far, of a full bucket at that call, what flowed in since at whatever rates, and less what was allowed since |
| `TokenBucket.VerdictIsExact` | services/api-gateway/src/resilience/TokenBucketRateLimiterEngine.ts:45-65 | so in every run, with any keys and tiers mixed, whether a call is allowed and how many tokens it is told are left follows exactly from the calls before it |
| `TokenBucket.FirstCallsAreAllowed` | services/api-gateway/src/resilience/TokenBucketRateLimiterEngine.ts:45-62 | a new key is allowed as many calls at once as its capacity, with capacity-1 down to 0 remaining, and no more |
| `TokenBucket.AllowedAfterHint` | services/api-gateway/src/resilience/TokenBucketRateLimiterEngine.ts:63-64 | by the first call that is made after the hinted time a request has been allowed, however often the bucket is polled in between |
| `TokenBucket.HintIsOneSecond` | services/api-gateway/src/resilience/TokenBucketRateLimiterEngine.ts:63-64 | with whole tokens a second the hint is always one second |
| `Outbox.BatchOf` | services/billing-service/src/events/FinancialLedgerTransactionEventOutboxHandler.ts:56-57 | how many pending messages a batch takes: no more than there are and, for a negative size, all but the last ones, as slicing does |
| `Outbox.FlushedAt` | services/billing-service/src/events/FinancialLedgerTransactionEventOutboxHandler.ts:56-82 | a flush attempts exactly the pending messages of its batch up to the first whose handling throws, each as it was before the flush, and leaves all others |
| `Outbox.AttemptCounts` | services/billing-service/src/events/FinancialLedgerTransactionEventOutboxHandler.ts:67-77 | an attempt publishes the message or counts one retry, also when it is rejected with nothing |
| `Outbox.FlushCounts` | services/billing-service/src/events/FinancialLedgerTransactionEventOutboxHandler.ts:58-81 | publications and new retries of a flush together are the messages it attempts, and they are its whole batch exactly when no message of the batch but its last breaks it |
| `Outbox.ThrowsIff` | services/billing-service/src/events/FinancialLedgerTransactionEventOutboxHandler.ts:56-82 | a flush throws exactly when a message of its batch is rejected with null or undefined, of which line 73 cannot read a message |
| `Outbox.RunExists` | services/billing-service/src/events/FinancialLedgerTransactionEventOutboxHandler.ts:34-82 | every sequence of operations, with any behaviour of the subscribers, has a run |
| `Outbox.StatusTellsRetries` | services/billing-service/src/events/FinancialLedgerTransactionEventOutboxHandler.ts:34-82 | in every run a message is given up exactly at its fifth failure, exactly if its fifth attempt was not rejected with nothing |
| `Outbox.AllAreSound` | services/billing-service/src/events/FinancialLedgerTransactionEventOutboxHandler.ts:34-82 | so that holds of all messages of a state exactly if no fifth attempt so far was rejected with nothing |
| `Outbox.MessagesAdvance` | services/billing-service/src/events/FinancialLedgerTransactionEventOutboxHandler.ts:56-82 | messages are never dropped, reordered or rewritten, retries never decrease, and a published or given-up message never changes again |
| `Outbox.EveryEventIsAccountedFor` | services/billing-service/src/events/FinancialLedgerTransactionEventOutboxHandler.ts:34-47 | pending, published and given-up messages together are the queued events |
| `Outbox.EventsKeepTheirOrder` | services/billing-service/src/events/FinancialLedgerTransactionEventOutboxHandler.ts:34-47 | the queue holds the events in the order in which they were queued, each under its topic and with its tenant as partition key |
| `Outbox.SubscribersKeepTheirOrder` | services/billing-service/src/events/FinancialLedgerTransactionEventOutboxHandler.ts:49-54 | the handlers of an event type are those that subscribed to it, in order |
| `Outbox.ErrorsAreLatest` | services/billing-service/src/events/FinancialLedgerTransactionEventOutboxHandler.ts:70-77 | the recorded error of a message is that of its latest failure with an error, and there is none if no failure had one |
| `Outbox.FlushesDrain` | services/billing-service/src/events/FinancialLedgerTransactionEventOutboxHandler.ts:56-82 | five flushes for each pending message leave none pending, however small the batches are, if no fifth attempt is rejected with nothing |
| `Outbox.FullFlushesRetry` | services/billing-service/src/events/FinancialLedgerTransactionEventOutboxHandler.ts:56-82 | n flushes that take the whole queue have tried a message that is still pending n times, if no message in front of it breaks one of them |
| `Outbox.FiveFullFlushesDrain` | services/billing-service/src/events/FinancialLedgerTransactionEventOutboxHandler.ts:56-82 | so five such flushes settle the message, if its fifth attempt is not rejected with nothing |
| `Outbox.DeliveriesDiffer` | services/billing-service/src/events/FinancialLedgerTransactionEventOutboxHandler.ts:58-66 | no subscriber is given a message twice in one attempt, so a fixed outcome for every subscriber, message and attempt stands for any behaviour |
| `Outbox.DeliveriesAreAttempts` | services/billing-service/src/events/FinancialLedgerTransactionEventOutboxHandler.ts:61-66 | a subscriber is given a message at most once an attempt |
| `Outbox.AtMostFiveDeliveries` | services/billing-service/src/events/FinancialLedgerTransactionEventOutboxHandler.ts:61-76 | in every run no subscriber is given a message more than five times whose fifth attempt was not rejected with nothing |
| `Outbox.NothingForever` | services/billing-service/src/events/FinancialLedgerTransactionEventOutboxHandler.ts:64-76 | a run of any length in which a subscriber that always rejects with nothing is given one message with every flush, n times, and it stays pending with n retries |
| `Outbox.SoundIffExplained` | services/billing-service/src/events/FinancialLedgerTransactionEventOutboxHandler.ts:34-82 | in all runs every message is given up exactly at its fifth failure, exactly if the subscribers never let a message fail five times and the fifth time with nothing |
| `Outbox.DrainsIffExplained` | services/billing-service/src/events/FinancialLedgerTransactionEventOutboxHandler.ts:34-82 | five flushes for each pending message are enough in all runs exactly with such subscribers |
| `Outbox.AtMostFiveIffExplained` | services/billing-service/src/events/FinancialLedgerTransactionEventOutboxHandler.ts:34-82 | no subscriber is given a message a sixth time in any run exactly with such subscribers |
| `Outbox.RetriesIffAllExplained` | services/billing-service/src/events/FinancialLedgerTransactionEventOutboxHandler.ts:34-82 | flushes of the whole queue try every pending message in all runs exactly if none of the first five failures of a message is a rejection with nothing |
| `Outbox.PublishedWasTaken` | services/billing-service/src/events/FinancialLedgerTransactionEventOutboxHandler.ts:61-69 | a published message was taken without error, in one flush, by every subscriber that its event type had |
| `Outbox.RetriesWereFailures` | services/billing-service/src/events/FinancialLedgerTransactionEventOutboxHandler.ts:64-76 | every counted retry is a delivery that threw |
| `OutboxHandler.FinancialLedgerTransactionEventOutboxHandler.QueueEvent` | services/billing-service/src/events/FinancialLedgerTransactionEventOutboxHandler.ts:34-47 | a fresh pending message at the end of the queue |
| `OutboxHandler.FinancialLedgerTransactionEventOutboxHandler.WithStatus` | services/billing-service/src/events/FinancialLedgerTransactionEventOutboxHandler.ts:57 | filtering returns the message objects of a status, all and in order |
| `OutboxHandler.FinancialLedgerTransactionEventOutboxHandler.GetDeadLetterMessages` | services/billing-service/src/events/FinancialLedgerTransactionEventOutboxHandler.ts:88-90 | the messages that were given up, all and in order |
| `OutboxHandler.FinancialLedgerTransactionEventOutboxHandler.Deliver` | services/billing-service/src/events/FinancialLedgerTransactionEventOutboxHandler.ts:63-66 | the subscribers are called in order until one throws |
| `OutboxHandler.FinancialLedgerTransactionEventOutboxHandler.AttemptAll` | services/billing-service/src/events/FinancialLedgerTransactionEventOutboxHandler.ts:58-79 | the loop attempts the messages of the batch one after the other and counts them, and is left without a result by the first that is rejected with nothing |
| `OutboxHandler.FinancialLedgerTransactionEventOutboxHandler.FlushOutbox` | services/billing-service/src/events/FinancialLedgerTransactionEventOutboxHandler.ts:56-82 | a flush is the flush on values; it reports what was published and what was retried, together the batch, exactly when it does not throw |
| `LeaseLock.DistributedLeaseLockManager.AcquireLease` | packages/common/src/concurrency/DistributedLeaseLockManager.ts:18-37 | refused exactly when another owner's lease is stored and unexpired; otherwise the lease is stored with the next token |
| `LeaseLock.DistributedLeaseLockManager.ReleaseLease` | packages/common/src/concurrency/DistributedLeaseLockManager.ts:39-44 | only the stored owner releases, and nobody else changes anything |
| `LeaseLock.SequenceCountsGrants` | packages/common/src/concurrency/DistributedLeaseLockManager.ts:16-26 | the sequence is 1000 and the number of grants |
| `LeaseLock.TokensIncrease` | packages/common/src/concurrency/DistributedLeaseLockManager.ts:26-31 | later grants have larger tokens, across all resources |
| `LeaseLock.StoredIsLatestGrant` | packages/common/src/concurrency/DistributedLeaseLockManager.ts:18-44 | what is stored for a resource is its latest grant, unless that was released |
| `LeaseLock.HandOver` | packages/common/src/concurrency/DistributedLeaseLockManager.ts:18-44 | a resource passes to another owner only after its lease has expired or was released |
| `LeaseLock.LatestGrantExcludes` | packages/common/src/concurrency/DistributedLeaseLockManager.ts:22-24 | while the latest grant is live exactly its owner is granted the resource, for all durations |
| `LeaseLock.DisplacedReleaseChangesNothing` | packages/common/src/concurrency/DistributedLeaseLockManager.ts:39-44 | a release by an owner who was displaced changes nothing |
| `LeaseLock.StoredComesFromGrant` | packages/common/src/concurrency/DistributedLeaseLockManager.ts:18-44 | every stored lease is that of a grant whose owner has not released it since |
| `LeaseLock.GrantSays` | packages/common/src/concurrency/DistributedLeaseLockManager.ts:26-33 | a grant names its resource and owner, the time of the call, the end of the duration, and as its token 1000 and the number of grants so far |
| `LeaseLock.RefusedIffHeldByAnother` | packages/common/src/concurrency/DistributedLeaseLockManager.ts:18-24 | an acquisition is refused exactly while the latest grant of the resource is another owner's, has not expired and has not been asked to be released |
| `LeaseLock.ReleasedIffHeld` | packages/common/src/concurrency/DistributedLeaseLockManager.ts:39-44 | a release succeeds exactly for the owner of the latest grant, expired or not, who has not released it yet |
| `LeaseLock.MutualExclusion` | packages/common/src/concurrency/DistributedLeaseLockManager.ts:18-44 | if no call shortens an unexpired lease of its owner, all live grants of the resource belong to one owner at any time |
| `LeaseLock.ShorteningAdmitsTwo` | packages/common/src/concurrency/DistributedLeaseLockManager.ts:18-44 | after any call that does shorten one, two more calls lead to live grants of two owners |
| `LeaseLock.ExclusiveIffNoneShortens` | packages/common/src/concurrency/DistributedLeaseLockManager.ts:18-44 | so the resource stays exclusive in all runs that go on from the calls of a run without shortening anything exactly when those calls shorten nothing |
| `LeaseLock.MutualExclusionWithFixedDuration` | packages/common/src/concurrency/DistributedLeaseLockManager.ts:18-44 | in particular all live grants belong to one owner when all leases of the resource have one duration |
| `LeaseLock.ShorteningBreaksMutualExclusion` | packages/common/src/concurrency/DistributedLeaseLockManager.ts:18-44 | a run of four calls in which a shortening renewal lets two owners hold live grants |
| `Breaker.CircuitBreaker.CanPass` | services/api-gateway/src/services/circuitBreaker.ts:23-35 | the answer and the move to half open |
| `Breaker.CircuitBreaker.RecordSuccess` | services/api-gateway/src/services/circuitBreaker.ts:37-48 | counting, closing, or resetting the failures |
| `Breaker.CircuitBreaker.RecordFailure` | services/api-gateway/src/services/circuitBreaker.ts:50-59 | counting and tripping |
| `Breaker.ClosedCountsFailures` | services/api-gateway/src/services/circuitBreaker.ts:23-59 | a closed circuit counts the failures since the last success, and they are below the threshold |
| `Breaker.TripsAtThreshold` | services/api-gateway/src/services/circuitBreaker.ts:50-59 | a closed circuit opens exactly with the failure that completes a streak of the threshold's length |
| `Breaker.LatestFailure` | services/api-gateway/src/services/circuitBreaker.ts:50-52 | the recorded time is that of the latest failure |
| `Breaker.OpenPassesIffQuiet` | services/api-gateway/src/services/circuitBreaker.ts:23-33 | an open circuit lets a request pass exactly when all failures are more than the recovery timeout ago |
| `Breaker.HalfOpenIsProbing` | services/api-gateway/src/services/circuitBreaker.ts:23-48 | a half-open circuit has been so since a probe after a quiet period, without failures, and counts the successes since |
| `Breaker.ReclosingTakesQuietAndSuccesses` | services/api-gateway/src/services/circuitBreaker.ts:23-59 | every way from open back to closed contains a quiet period, then exactly the required successes and no failure |
| `Breaker.SuccessesClose` | services/api-gateway/src/services/circuitBreaker.ts:37-45 | and that many successes do close it |
| `Breaker.ClosedIffNotTripped` | services/api-gateway/src/services/circuitBreaker.ts:23-59 | told from the calls alone: the circuit is closed exactly if it has recovered from every failure that completed a streak, by a request after a quiet period and enough successes behind it |
| `Breaker.RefusedIffTrippedRecently` | services/api-gateway/src/services/circuitBreaker.ts:23-35 | a request is refused exactly if the circuit has not recovered from such a failure and some failure is no older than the recovery timeout |
| `Breaker.UntrippedPasses` | services/api-gateway/src/services/circuitBreaker.ts:23-35 | before the first streak of failures every request passes |
| `Breaker.PassesUntilFailure` | services/api-gateway/src/services/circuitBreaker.ts:23-35 | after a request that passes, the probe for one, every request passes up to the next failure |
| `WindowLimiter.InMemoryRateLimiter.Cleanup` | services/api-gateway/src/middleware/rateLimiter.ts:20-27 | the loop removes exactly the expired records |
| `WindowLimiter.InMemoryRateLimiter.Middleware` | services/api-gateway/src/middleware/rateLimiter.ts:35-52 | the record of the key after a request, and whether the request is admitted |
| `WindowLimiter.CleanupIsInvisible` | services/api-gateway/src/middleware/rateLimiter.ts:20-52 | wherever cleanups happen, the same requests are admitted |
| `WindowLimiter.DecisionsIgnoreCleanups` | services/api-gateway/src/middleware/rateLimiter.ts:20-52 | a limiter that cleans up and one that never does decide alike |
| `WindowLimiter.AdmittedIffEarlyInWindow` | services/api-gateway/src/middleware/rateLimiter.ts:35-52 | in every run a request is admitted exactly if it is among the first max requests of its window, refused ones counted; a window is opened by the first request behind the one before |
| `WindowLimiter.CleanupKeepsLive` | services/api-gateway/src/middleware/rateLimiter.ts:20-27 | a cleanup keeps exactly the keys whose latest window has not passed |
| `WindowLimiter.IntervalSpansWindows` | services/api-gateway/src/middleware/rateLimiter.ts:35-52 | the windows of a key that an interval meets begin more than the window's length apart, and one that began before it has spent a request |
| `WindowLimiter.IntervalIsBounded` | services/api-gateway/src/middleware/rateLimiter.ts:35-52 | a closed interval of any length admits no more requests of a key than so many windows can: with n = length div (window + 1), (n+1)*max if nothing remains and (n+2)*max-1 if something does |
| `WindowLimiter.WindowLengthsAreBounded` | services/api-gateway/src/middleware/rateLimiter.ts:35-52 | so k window lengths admit at most (k+1)*max-1 requests |
| `WindowLimiter.BoundIsReached` | services/api-gateway/src/middleware/rateLimiter.ts:35-52 | for all settings and lengths some run admits exactly as many as the bound says |
| `Amortization.Rounded` | services/billing-service/src/recognition/DeferredRevenueAmortizationScheduleEngine.ts:19 | the nearest integer, a half away from zero |
| `Amortization.DeferredRevenueAmortizationScheduleEngine.GenerateStraightLineSchedule` | services/billing-service/src/recognition/DeferredRevenueAmortizationScheduleEngine.ts:13-42 | the loop builds the schedule month by month |
| `Amortization.EntriesInWholeCents` | services/billing-service/src/recognition/DeferredRevenueAmortizationScheduleEngine.ts:28-39 | whatever fraction of a cent the total has, every entry is that of a schedule in whole cents for the rounded total |
| `Amortization.WholeTotalIsRecognized` | services/billing-service/src/recognition/DeferredRevenueAmortizationScheduleEngine.ts:28-38 | what is recognised sums to the total rounded to cents, for every total and duration |
| `Amortization.BalancesChain` | services/billing-service/src/recognition/DeferredRevenueAmortizationScheduleEngine.ts:31-38 | ending balances carry over, the first beginning is the total to the cent and the last ending is 0; so cutting an ending balance at 0 changes nothing |
| `Amortization.RevenueIsNonNegative` | services/billing-service/src/recognition/DeferredRevenueAmortizationScheduleEngine.ts:28 | no month takes revenue back exactly when the total, to the cent, is not negative |
| `Amortization.BalanceClosedForm` | services/billing-service/src/recognition/DeferredRevenueAmortizationScheduleEngine.ts:28-38 | each month begins with what whole rates leave of the total to the cent, cut at 0; a negative total is recognised at once, and then the rate again every month, which the last one takes back |
| `Amortization.LastMonthIsCloseToRate` | services/billing-service/src/recognition/DeferredRevenueAmortizationScheduleEngine.ts:28 | the last amount differs from the rate by at most half a cent a month |
| `Amortization.PeriodsAreConsecutive` | services/billing-service/src/recognition/DeferredRevenueAmortizationScheduleEngine.ts:24-26 | the periods are consecutive calendar months from the start month on |
| `Amortization.MonthIsValidIff` | services/billing-service/src/recognition/DeferredRevenueAmortizationScheduleEngine.ts:25 | for every start month, exactly when a month number is between 1 and 12, and that year and month otherwise fall short by one year |
| `Ledger.GeneralLedgerChartOfAccountsMatrix.constructor` | services/billing-service/src/ledger/GeneralLedgerChartOfAccountsMatrix.ts:12-42 | the chart starts with the eighteen seeded accounts |
| `Ledger.GeneralLedgerChartOfAccountsMatrix.PostJournalEntry` | services/billing-service/src/ledger/GeneralLedgerChartOfAccountsMatrix.ts:44-62 | debit first, then credit, also when both are one account; unknown accounts change nothing |
| `Ledger.GeneralLedgerChartOfAccountsMatrix.VerifyTrialBalance` | services/billing-service/src/ledger/GeneralLedgerChartOfAccountsMatrix.ts:64-82 | the loop returns both totals and their difference |
| `Ledger.PostingsKeepDifference` | services/billing-service/src/ledger/GeneralLedgerChartOfAccountsMatrix.ts:44-62 | no sequence of postings changes debits less credits, whatever the accounts and amounts are |
| `Ledger.SeedNumbersAreDistinct` | services/billing-service/src/ledger/GeneralLedgerChartOfAccountsMatrix.ts:21-38 | the seeded account numbers are distinct, so a number names one account |
| `Ledger.SeedDifference` | services/billing-service/src/ledger/GeneralLedgerChartOfAccountsMatrix.ts:20-39 | the seeded accounts are out of balance by 2,500,000 |
| `Ledger.NeverBalances` | services/billing-service/src/ledger/GeneralLedgerChartOfAccountsMatrix.ts:19-82 | so the trial balance fails in every reachable state |
| `Ledger.PostedAt` | services/billing-service/src/ledger/GeneralLedgerChartOfAccountsMatrix.ts:49-59 | each balance changes by what is debited less what is credited, read by its normal side |
| `Ledger.EntryMovesAmount` | services/billing-service/src/ledger/GeneralLedgerChartOfAccountsMatrix.ts:44-62 | an entry between two known accounts raises or lowers each by its amount, by its normal side, and changes nothing else; an entry with an unknown account, or with one account on both sides, changes nothing |
| `Ledger.OppositePostingRestores` | services/billing-service/src/ledger/GeneralLedgerChartOfAccountsMatrix.ts:44-62 | the opposite posting restores every balance |
| `Ledger.PostingsCommute` | services/billing-service/src/ledger/GeneralLedgerChartOfAccountsMatrix.ts:44-62 | the order of postings does not matter |
| `Ledger.BalancesAreSums` | services/billing-service/src/ledger/GeneralLedgerChartOfAccountsMatrix.ts:44-62 | every balance is its opening balance and the sum of its postings |
| `RingBuffer.MaskIsRemainder` | packages/common/src/buffers/HighThroughputDisruptorRingBuffer.ts:17-27 | masking with a power of two less one is the remainder |
| `RingBuffer.MaskKeepsBits` | packages/common/src/buffers/HighThroughputDisruptorRingBuffer.ts:19-26 | masking keeps exactly the bits that the mask has, for every capacity |
| `RingBuffer.SlotIsRemainder` | packages/common/src/buffers/HighThroughputDisruptorRingBuffer.ts:19-26 | also through the 32-bit conversion, for every integer sequence number |
| `RingBuffer.OtherMasksCollide` | packages/common/src/buffers/HighThroughputDisruptorRingBuffer.ts:11-27 | with any other capacity two sequence numbers below it share a slot |
| `RingBuffer.HighThroughputDisruptorRingBuffer.Publish` | packages/common/src/buffers/HighThroughputDisruptorRingBuffer.ts:17-22 | the item is published under the next sequence number |
| `RingBuffer.HighThroughputDisruptorRingBuffer.Get` | packages/common/src/buffers/HighThroughputDisruptorRingBuffer.ts:24-27 | the latest item that went into the slot, if any |
| `RingBuffer.ReadsLatestCongruent` | packages/common/src/buffers/HighThroughputDisruptorRingBuffer.ts:24-27 | with a power of two, the latest item whose number is congruent, also for numbers that were never published |
| `RingBuffer.PowersKeepWindow` | packages/common/src/buffers/HighThroughputDisruptorRingBuffer.ts:17-27 | the last capacity items can be read |
| `RingBuffer.WindowIsKeptIffPowerOfTwo` | packages/common/src/buffers/HighThroughputDisruptorRingBuffer.ts:11-27 | and that holds exactly for powers of two |
| `MatrixOperations.Multiply` | packages/common/src/math/MatrixOperationsLibrary.ts:6-29 | absent where the source throws; otherwise every cell is the rounded row-by-column sum, and no number where an entry is missing |
| `MatrixOperations.Transpose` | packages/common/src/math/MatrixOperationsLibrary.ts:31-43 | absent where the source throws; otherwise every cell of the columns of the first row is moved across the diagonal, also when rows differ in length |
| `MatrixOperations.TransposeTwice` | packages/common/src/math/MatrixOperationsLibrary.ts:31-43 | transposing twice gives the matrix back exactly when all rows are equally long |
| `MatrixOperations.TransposeOfProduct` | packages/common/src/math/MatrixOperationsLibrary.ts:6-43 | the transposes can be multiplied in the other order exactly when the second matrix has a column, and that gives the transpose of the product, whatever the rounding is and whatever entries are missing |
| `MatrixOperations.ProductIsRoundedOnce` | packages/common/src/math/MatrixOperationsLibrary.ts:18-25 | every entry is that of the exact product, rounded once |
| `MatrixOperations.EntryIsMissingIff` | packages/common/src/math/MatrixOperationsLibrary.ts:18-25 | an entry is no number exactly if one of the entries that it is made of is none |
| `MatrixOperations.IdentityIsNeutral` | packages/common/src/math/MatrixOperationsLibrary.ts:6-29 | multiplying by the identity matrix on either side gives the matrix back |
| `MatrixOperations.ProductIsAdditive` | packages/common/src/math/MatrixOperationsLibrary.ts:6-29 | the product of a sum is the sum of the products, in the first argument |
| `MatrixOperations.ProductIsHomogeneous` | packages/common/src/math/MatrixOperationsLibrary.ts:6-29 | the product of a multiple is the multiple of the product, in the first argument |
| `MatrixOperations.ProductIsAdditiveBehind` | packages/common/src/math/MatrixOperationsLibrary.ts:6-29 | additive in the second argument |
| `MatrixOperations.ProductIsHomogeneousBehind` | packages/common/src/math/MatrixOperationsLibrary.ts:6-29 | homogeneous in the second argument |
| `MatrixOperations.ProductIsAssociative` | packages/common/src/math/MatrixOperationsLibrary.ts:6-29 | the product of rectangular matrices of numbers is associative |

## Left out

- BPlusTreeIndex.BPlusTreeDatabaseIndex.constructor: the order is a natural number, where the source takes any number.
- BPlusTreeIndex.BPlusTreeDatabaseIndex.Search: keys are integers, where the source compares values of any type with the operators of its language.
- BinPacking.Pack3DBins: sums are exact reals, where the source adds floating-point numbers.
- BinPacking.PackingRatio: is for items of non-negative size, since sizes are volumes and weights.
- BTreeAnswers.SearchIsTruthfulUntilFirstSplit: is for distinct keys and values, since among equal values the one of another key cannot be told apart.
- RouteOptimization.SwapExchangesTwoLegs: assumes a symmetric distance, as the great-circle distance is; the other results about routes do not.
- RouteOptimization.TwoOptOptimization: the great-circle formula is replaced by an arbitrary distance, and sums are exact.
- TokenBucket.TokenBucketRateLimiterEngine.CheckRequestAllowance: tokens are exact thousandths, where the source adds floating-point fractions.
- TokenBucket.AllowedAfterHint: is for calls of one key under one rule after the refusal, since the hint is computed from the rule of the refused call.
- OutboxHandler.FinancialLedgerTransactionEventOutboxHandler.FlushOutbox: flushes do not overlap, and subscribers neither queue events nor subscribe during a flush; timestamps and random message ids are not modelled, the position in the queue stands for the id.
- Outbox.FiveFullFlushesDrain: is for a message that no other blocks in any of the five flushes, though five more flushes may settle one that was blocked.
- WindowLimiter.IntervalIsBounded: is for a window length that is not negative.
- Outbox.PublishedWasTaken: subscribers are called one after the other, as the source awaits them; a subscriber that never settles is not modelled.
- LeaseLock.DistributedLeaseLockManager.ReleaseLease: does not look at the time, as in the source; its time argument only orders it in a run.
- Breaker.CircuitBreaker.CanPass: logging is not modelled.
- WindowLimiter.InMemoryRateLimiter.Middleware: response headers, the extraction of the client address and the timer that calls the cleanup are not modelled.
- Amortization.DeferredRevenueAmortizationScheduleEngine.GenerateStraightLineSchedule: periods are pairs of year and month, where the source formats a string; durations are whole numbers, and amounts are exact reals, where the source computes with floating-point numbers.
- Amortization.LastMonthIsCloseToRate: is for totals that are not negative, as those of contracts are; for others the last month takes back what the months before it recognised twice.
- Ledger.GeneralLedgerChartOfAccountsMatrix.PostJournalEntry: the accounts are a list in insertion order that is searched by number; names, categories and tax codes are not modelled.
- RingBuffer.HighThroughputDisruptorRingBuffer.constructor: requires a capacity from 1 to 2^31, the range in which capacity - 1 is a non-negative 32-bit integer, as the masking operator reads it; other capacities are not modelled.
- BTree.LeafAnswers: is for distinct keys; of keys that were inserted twice, what is proved are the answers before the first split and where a key goes that a split promotes.
- MatrixOperations.ProductIsAssociative: is for the exact product of rectangular matrices of numbers, since rounding entries is not associative.
- MatrixOperations.Multiply: entries are exact reals or no number; what is missing and what is not a number are one and the same, and the message of an error is not modelled.
- Strings are sequences of characters; the source's UTF-16 code units are not modelled.
- Sequence numbers and counters are unbounded integers; the source's numbers are exact up to 2^53.
- The adaptive circuit breaker in services/api-gateway/src/resilience/AdaptiveCircuitBreakerEngine.ts is not part of this model; the circuit breaker of the same service is.
- The outbox handlers of the other services repeat the one that is modelled.
- Bearings, forecasting, smoothing and scoring formulas are floating-point expressions and not part of this model.
- HTTP applications, controllers, proxies, configuration, logging, the dashboard, repositories and data tables would only add easy members.
- Tokens, key derivation, single sign-on and other security code is not part of this model.
