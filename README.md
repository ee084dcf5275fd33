# Arcadia engine, modelled in Dafny

This project models and proves the algorithmic core of `ArcadiaEngine.cpp`. That file holds a game back end made of independent exercises:

- **Players** (`PlayerTable.dfy`): `ConcretePlayerTable`, a 101-slot open-addressed table from player id to name, with double hashing. It is a class over an `array<Slot>`. A ghost step map records at which probe each key was stored. The invariant `Wellformed` says every stored key sits on its own probe path, past slots that hold other keys, and no key is stored twice. `Search` and `Insert` are proved against the abstract map `Contents()`.
- **Ranking** (`Ranking.dfy`): the abstract leaderboard, a sequence of (id, score) entries. It is ordered by score descending, then id ascending, with one entry per id. It defines `AddScore`, `Without` (remove) and `TopN`, with their laws.
- **SkipList** (`SkipList.dfy`): `ConcreteLeaderboard`, a skip list over an arena of nodes. Node 0 is the head sentinel (id -1, score INT_MIN, level 16). `next[x][l]` is node x's forward pointer at level l, with -1 for null. A ghost `order` lists the nodes along level 0, and the chain at level l is the sub-sequence of `order` made of the nodes of level at least l. `AddScore`, `RemovePlayer` and `GetTopN` are proved to act on `Entries()` exactly as the abstract board's operations do, keeping sortedness, uniqueness of ids and the sub-chain property at every level.
- **Inventory** (`Inventory.dfy`):
  - `optimizeLootSplit` is an in-place 0/1 subset-sum table. It is proved optimal over all two-way splits.
  - `countStringPossibilities` is a linear DP modulo 10^9 + 7. It is proved to count the readings in which "uu" or "nn" may merge.
- **Navigator** (`Navigator.dfy`):
  - `pathExists` is breadth-first search. It is proved to decide reachability over the accepted edges.
  - `minBribeCost` is Prim's algorithm with a lazy heap. It is proved to return -1 for a disconnected kingdom, and otherwise the cost of a spanning tree grown from city 0. When the rates and the gold and silver fields are non-negative, -1 is returned exactly for a disconnected kingdom.
  - `sumMinDistancesBinary` is Floyd–Warshall in place on an n×n matrix, then the sum over i < j of the finite distances, written in binary. Each entry is proved to be the least route weight when no road is negative.
- **Kernel** (`Kernel.dfy`): `minIntervals`, the closed-form CPU-schedule length computed from 26 letter buckets.

Integers are unbounded throughout. The source's -1 null pointer, INT_MIN sentinel and `1LL << 60` infinity are kept as the same constants.

The code and its comments disagree in two places, and the model follows the code:

- `sumMinDistancesBinary` sets only `dist[u][v]` (line 778), although the comment at line 776 says both directions are updated. Its roads are therefore directed u → v.
- `countStringPossibilities("m")` is 1 by the code. The test at `ideone_opnWRl.cpp:250` expects 0.

## Model

| member | source | states |
|---|---|---|
| Players.Hash1 | ArcadiaEngine.cpp:37-39 | for a key ≥ 0 the primary hash is a slot index in 0..100 |
| Players.Hash2 | ArcadiaEngine.cpp:43-45 | the step `97 - key % 97` lies in 1..97, so it is never 0 |
| Players.Probe | ArcadiaEngine.cpp:56 | probe i of a key is a slot index in 0..100 |
| Players.NoZeroDivisor | ArcadiaEngine.cpp:34 | 101 is prime: a product of two numbers in 1..100 is never a multiple of 101 |
| Players.ProbesDistinct | ArcadiaEngine.cpp:55-56 | the first 101 probes of a key visit pairwise different slots |
| Players.ProbedSize | ArcadiaEngine.cpp:55-56 | the first n ≤ 101 probes of a key visit exactly n slots |
| Players.ProbesCover | ArcadiaEngine.cpp:55-56 | every slot is visited by one of the first 101 probes of every key |
| Players.Absent | ArcadiaEngine.cpp:84-94 | a key whose probes meet only other keys until an empty slot, or for all 101 probes, is not stored |
| Players.BlockedFull | ArcadiaEngine.cpp:55-74 | when all 101 probes of a key meet other keys, every slot is used |
| Players.Lookup | ArcadiaEngine.cpp:90-91 | a used slot's key maps to that slot's name |
| Players.Find | ArcadiaEngine.cpp:84-91 | a stored key sits in a used slot that holds its name |
| Players.RenameKeeps | ArcadiaEngine.cpp:58-62 | overwriting the name of a used slot keeps the table invariant |
| Players.Rename | ArcadiaEngine.cpp:58-62 | overwriting the name of a used slot changes exactly that key's name in the map |
| Players.ClaimKeeps | ArcadiaEngine.cpp:64-70 | filling the first free slot on a new key's probe path keeps the invariant |
| Players.Claim | ArcadiaEngine.cpp:64-70 | filling that slot adds exactly that key with its name to the map |
| Players.PlayerTable.constructor | ArcadiaEngine.cpp:24-34 | the new table is well formed and all 101 slots are empty, so the map is empty |
| Players.PlayerTable.Search | ArcadiaEngine.cpp:79-95 | returns the stored name of the key, or "" when the key is not stored |
| Players.PlayerTable.Insert | ArcadiaEngine.cpp:50-75 | the key is stored with the name (an existing name is overwritten) unless the key is new and all 101 slots are taken; then nothing changes and `stored` is false |
| Ranking.ShouldInsertBeforeIsPrecedes | ArcadiaEngine.cpp:161-175 | shouldInsertBefore is the order "higher score, then lower id", and the end of the list admits every node |
| Ranking.PrecedesTotalOrder | ArcadiaEngine.cpp:152-175 | that order is irreflexive, asymmetric and transitive, and total on distinct entries |
| Ranking.Ids | ArcadiaEngine.cpp:351 | the ids of a board, position by position |
| Ranking.ScoreMapSpec | ArcadiaEngine.cpp:208-233 | with unique ids the score map holds exactly the board's ids, each with its entry's score |
| Ranking.WithoutSpec | ArcadiaEngine.cpp:272-336 | removal keeps exactly the entries with other ids, takes nothing new, and changes nothing when the id is absent |
| Ranking.WithoutUnique | ArcadiaEngine.cpp:272-336 | removal keeps ids unique |
| Ranking.WithoutOrdered | ArcadiaEngine.cpp:272-336 | removal keeps the board ordered |
| Ranking.WithoutScores | ArcadiaEngine.cpp:272-336 | removal deletes exactly that id from the score map |
| Ranking.WithoutIdempotent | ArcadiaEngine.cpp:287-288 | removing an id twice is the same as removing it once |
| Ranking.WithoutRemoves | ArcadiaEngine.cpp:272-336 | after removal the id is not on the board |
| Ranking.InsertSortedSpec | ArcadiaEngine.cpp:239-264 | inserting adds exactly the new entry (as a multiset) |
| Ranking.InsertSortedOrdered | ArcadiaEngine.cpp:239-264 | inserting an entry with a new id keeps the board ordered and its ids unique |
| Ranking.InsertSortedScores | ArcadiaEngine.cpp:239-264 | inserting sets exactly the new id's score in the map |
| Ranking.WithoutInserted | ArcadiaEngine.cpp:229-264 | removing a freshly inserted id gives back the board before the insert |
| Ranking.AddScoreOrdered | ArcadiaEngine.cpp:208-266 | addScore keeps the board ordered with unique ids |
| Ranking.AddScoreScores | ArcadiaEngine.cpp:223-233 | addScore sets the id's score to old + delta (or delta for a new id) and leaves every other score unchanged |
| Ranking.AddScoreTwice | ArcadiaEngine.cpp:208-233 | addScore(id, a) then addScore(id, b) gives the same board as addScore(id, a + b) |
| Ranking.Limit | ArcadiaEngine.cpp:350 | the number of ids getTopN takes never exceeds the board's size |
| Ranking.TopNSpec | ArcadiaEngine.cpp:343-356 | for n ≥ 0 getTopN returns the ids of the first min(n, size) entries, for n < 0 all ids, and every returned entry precedes every entry left out |
| Ranking.SplitIndex | ArcadiaEngine.cpp:245-255 | an ordered board splits at one position into the entries that precede a new entry and those that do not |
| Ranking.InsertAt | ArcadiaEngine.cpp:257-264 | inserting places the entry exactly at that split position |
| Ranking.WithoutAt | ArcadiaEngine.cpp:318-332 | with unique ids, removing the id at position t cuts out exactly position t |
| SkipList.Nulls | ArcadiaEngine.cpp:128-129 | a node's forward vector starts as level + 1 null pointers |
| SkipList.ChainZero | ArcadiaEngine.cpp:348 | the level-0 chain is the whole level-0 order |
| SkipList.ChainDistinct | ArcadiaEngine.cpp:123 | no node appears twice on any level's chain |
| SkipList.NextAfter | ArcadiaEngine.cpp:249-251 | the forward pointer at level l from a node on the chain leads to the next node of level ≥ l in the order |
| SkipList.DescendStep | ArcadiaEngine.cpp:245-255 | where the walk stops on level l is the last node of level ≥ l before the split position, and its pointer leads to the first such node at or after it |
| SkipList.InsertKeeps | ArcadiaEngine.cpp:257-264 | splicing a new node after the update nodes at levels 0..level keeps the skip-list invariant and inserts its entry in order |
| SkipList.RemoveKeeps | ArcadiaEngine.cpp:318-332 | bypassing a node at every level where the update node points to it keeps the invariant and removes its entry |
| SkipList.LevelZero | ArcadiaEngine.cpp:212-221 | level 0 from the head visits the nodes in the level-0 order, then null |
| SkipList.Leaderboard.constructor | ArcadiaEngine.cpp:179-186 | the new leaderboard is well formed and empty |
| SkipList.Leaderboard.Find | ArcadiaEngine.cpp:209-221 | the linear scan over level 0 finds the node with the id exactly when the id is on the board |
| SkipList.Leaderboard.Descend | ArcadiaEngine.cpp:241-255 | the top-down walk returns, for each level, the last node of that level before the insertion (or removal) position |
| SkipList.Leaderboard.RemovePlayer | ArcadiaEngine.cpp:272-336 | the board after removePlayer is the board without that id; an assertion in the body proves the check at line 312 never fires |
| SkipList.Leaderboard.Bypass | ArcadiaEngine.cpp:318-332 | unlinking the found node leaves a well-formed board without its entry |
| SkipList.Leaderboard.Unlink | ArcadiaEngine.cpp:323-332 | the per-level loop bypasses the node at exactly the levels where the update node points to it |
| SkipList.Leaderboard.Insert | ArcadiaEngine.cpp:235-264 | inserting a node with a new id keeps the board well formed and inserts its entry in order |
| SkipList.Leaderboard.Link | ArcadiaEngine.cpp:257-264 | the splice after the descent inserts the entry in order |
| SkipList.Leaderboard.Splice | ArcadiaEngine.cpp:261-264 | the per-level loop links the new node after its update node at levels 0..level |
| SkipList.Leaderboard.AddScore | ArcadiaEngine.cpp:208-266 | the board after addScore is the abstract addScore of the old board; the id's score is old + delta (or delta) and every other score is unchanged |
| SkipList.Leaderboard.GetTopN | ArcadiaEngine.cpp:343-356 | returns the abstract top-n ids of the board |
| Inventory.ReachableZero | ArcadiaEngine.cpp:437 | the empty selection makes the sum 0 |
| Inventory.ReachableBounds | ArcadiaEngine.cpp:427-433 | with non-negative coins only sums between 0 and the total are reachable |
| Inventory.BestUpToSpec | ArcadiaEngine.cpp:455-463 | the best sum is reachable, at most the bound, and no larger sum up to the bound is reachable |
| Inventory.MaskReachable | ArcadiaEngine.cpp:431-453 | the sum of every selection of coins is reachable |
| Inventory.ReachableMask | ArcadiaEngine.cpp:431-453 | every reachable sum is the sum of some selection of coins |
| Inventory.Complement | ArcadiaEngine.cpp:465-466 | the other group is the complement of a selection |
| Inventory.ComplementSum | ArcadiaEngine.cpp:465-466 | the other group's sum is the total minus the selection's sum |
| Inventory.LootSplitOptimal | ArcadiaEngine.cpp:405-472 | for non-negative coins the result is no more than the difference of any two-way split, and some split attains it |
| Inventory.OptimizeLootSplit | ArcadiaEngine.cpp:416-472 | the in-place table with its backwards inner loop returns total − 2·best: 0 for n ≤ 0 or no coins |
| Inventory.LootSplitExample | ideone_opnWRl.cpp:200-204 | {1, 2, 4} splits with difference 1 |
| Inventory.Ways | ArcadiaEngine.cpp:489-506 | each table entry lies in 0..10^9+6 |
| Inventory.ReadingsFromEnd | ArcadiaEngine.cpp:493-508 | readings can be counted from the end: the last letter alone, or the last two letters merged |
| Inventory.WaysCountsReadings | ArcadiaEngine.cpp:488-508 | dp[i] is the number of readings of the first i letters modulo 10^9+7 |
| Inventory.PairIsMerge | ArcadiaEngine.cpp:501-505 | the substring test against "uu" and "nn" is the merge condition on the two letters |
| Inventory.WaysStep | ArcadiaEngine.cpp:496-507 | one table entry in the loop's own terms |
| Inventory.CountStringPossibilities | ArcadiaEngine.cpp:483-527 | returns the number of readings modulo 10^9+7, in 0..10^9+6 |
| Inventory.ReadingsExamples | ArcadiaEngine.cpp:510-522 | "uunu" has 2 readings, as worked through in the comment; "" has 1 and "uu" 2; "m" has 1, the code's value (a driver expects 0) |
| Navigator.ReachSelf | ArcadiaEngine.cpp:560 | every city reaches itself |
| Navigator.ReachStep | ArcadiaEngine.cpp:604-617 | a neighbour of a reachable city is reachable |
| Navigator.ReachClosed | ArcadiaEngine.cpp:597-624 | a set that holds the source and is closed under adjacency holds every reachable city |
| Navigator.Cities | ArcadiaEngine.cpp:587 | the cities 0..n-1, n of them |
| Navigator.CitiesBound | ArcadiaEngine.cpp:665 | a set of cities holds at most n, and exactly n only when it holds them all |
| Navigator.NoNeighbours | ArcadiaEngine.cpp:566 | n empty neighbour lists (used for both adjacency lists) |
| Navigator.AdjacentPrefix | ArcadiaEngine.cpp:569-580 | reading one more edge adds exactly the neighbours it joins, if it is accepted |
| Navigator.BuildNeighbours | ArcadiaEngine.cpp:566-580 | v is listed for u exactly when an accepted edge joins them, in either direction |
| Navigator.PathExists | ArcadiaEngine.cpp:545-625 | true exactly when source and dest are cities and dest is reachable from source over accepted edges |
| Navigator.ArcAdjacent | ArcadiaEngine.cpp:636-647 | u and v are neighbours exactly when u's list has an entry for v |
| Navigator.ArcsPrefix | ArcadiaEngine.cpp:638-647 | reading one more road adds exactly the entries that road gives |
| Navigator.BuildArcs | ArcadiaEngine.cpp:636-647 | {v, c} is listed for u exactly when some road joins u and v at cost gold·goldRate + silver·silverRate |
| Navigator.PopMin | ArcadiaEngine.cpp:667-668 | the entry taken is the smallest pair (cost, city) on the heap |
| Navigator.Removed | ArcadiaEngine.cpp:668 | the heap after the pop keeps every other entry |
| Navigator.TreeCostSnoc | ArcadiaEngine.cpp:675 | joining a city by a road adds that road's cost |
| Navigator.TreeCostNonNegative | ArcadiaEngine.cpp:642 | with non-negative rates and road fields a tree never costs less than 0 |
| Navigator.Unmarked | ArcadiaEngine.cpp:651 | no city starts visited |
| Navigator.Mark | ArcadiaEngine.cpp:674 | setting visited[u] adds u to the joined cities |
| Navigator.Popped | ArcadiaEngine.cpp:667-668 | every city on the heap is in range |
| Navigator.Join | ArcadiaEngine.cpp:671-676 | joining an unvisited popped city grows the tree by the road it came by and adds that road's cost |
| Navigator.Skip | ArcadiaEngine.cpp:671 | dropping a popped city that is already joined keeps the loop's state |
| Navigator.GrowStep | ArcadiaEngine.cpp:674-676 | a city joined by a road out of the tree extends the tree |
| Navigator.ArcsAt | ArcadiaEngine.cpp:679 | city u's list holds exactly the roads out of u |
| Navigator.Offer | ArcadiaEngine.cpp:679-683 | after the pushes every neighbour of a joined city is joined or waits on the heap, and every heap entry came by a road out of a joined city |
| Navigator.Outside | ArcadiaEngine.cpp:688 | fewer than n joined cities miss one city |
| Navigator.Stranded | ArcadiaEngine.cpp:688 | when the heap runs dry before n cities are joined, the kingdom is not connected |
| Navigator.MinBribeCost | ArcadiaEngine.cpp:631-691 | −1 when not every city is reachable from city 0; otherwise the cost of a spanning tree grown from city 0; with non-negative rates and fields, −1 if and only if the kingdom is disconnected |
| Navigator.Min | ArcadiaEngine.cpp:778 | the smaller of the two values |
| Navigator.DirectBound | ArcadiaEngine.cpp:757-779 | an entry before the rounds is at most 0 on the diagonal and INF elsewhere |
| Navigator.DirectLeast | ArcadiaEngine.cpp:766-779 | an entry before the rounds is at most the weight of every accepted road from i to j |
| Navigator.DirectAttained | ArcadiaEngine.cpp:757-779 | an entry before the rounds is its starting value or the weight of some accepted road from i to j |
| Navigator.ThroughBound | ArcadiaEngine.cpp:785-804 | a round never raises an entry |
| Navigator.ThroughNonNegative | ArcadiaEngine.cpp:785-804 | with no negative road every entry stays ≥ 0 and the diagonal stays 0 |
| Navigator.CrossStable | ArcadiaEngine.cpp:785-804 | round k leaves row k and column k unchanged when no road is negative |
| Navigator.WeightAppend | ArcadiaEngine.cpp:797 | the weight of two joined routes is the sum of their weights |
| Navigator.WeightNonNegative | ArcadiaEngine.cpp:797 | with no negative road every route has non-negative weight |
| Navigator.RouteAppend | ArcadiaEngine.cpp:797 | a route to k joined with a route from k is a route through k |
| Navigator.RouteSplit | ArcadiaEngine.cpp:785-804 | a route that stops at k−1 splits at its first such stop into a leg below k−1 and a leg from k−1 |
| Navigator.RouteNarrow | ArcadiaEngine.cpp:785-804 | a route that never stops at k−1 stops only below k−1 |
| Navigator.RouteWiden | ArcadiaEngine.cpp:785-804 | a route allowed stops below k is allowed stops below k + 1 |
| Navigator.ThroughAttained | ArcadiaEngine.cpp:785-804 | every entry below INF is the weight of a route whose stops are below the round |
| Navigator.Detour | ArcadiaEngine.cpp:797-800 | after round k−1 an entry is at most any bound on its two legs through k−1 |
| Navigator.ThroughLeast | ArcadiaEngine.cpp:785-804 | with no negative road every entry is at most the weight of every route it covers |
| Navigator.LeastVia | ArcadiaEngine.cpp:785-804 | the same for a route that stops at k−1 |
| Navigator.ShortestRoute | ArcadiaEngine.cpp:747-806 | with no negative road the final entry is the least weight of a route from i to j, or INF |
| Navigator.Reversed | ArcadiaEngine.cpp:839 | std::reverse of the string |
| Navigator.BitsShape | ArcadiaEngine.cpp:833-836 | the pushed bits are binary digits, and the last one pushed for t > 0 is 1 |
| Navigator.BitsValue | ArcadiaEngine.cpp:833-839 | read most significant first, the reversed bits of t give t back |
| Navigator.RenderValue | ArcadiaEngine.cpp:824-841 | the result is "0" for a zero total and a binary string with a leading 1 whose value is the total for a positive one |
| Navigator.Row | ArcadiaEngine.cpp:757 | a row of m copies of a value |
| Navigator.Grid | ArcadiaEngine.cpp:757 | n rows of n INF |
| Navigator.DirectNext | ArcadiaEngine.cpp:766-779 | reading one more road changes only the entry it leads along, to the smaller of the two values |
| Navigator.StageStep | ArcadiaEngine.cpp:791-801 | one step of round k reads the round's inputs and writes the entry's value after the round |
| Navigator.RowSkip | ArcadiaEngine.cpp:789 | skipping a row whose entry to k is INF leaves it at its value after the round |
| Navigator.InitialDistances | ArcadiaEngine.cpp:757-779 | the matrix before the rounds: 0 on the diagonal, then the least direct road |
| Navigator.RelaxRow | ArcadiaEngine.cpp:786-803 | row i of round k ends with its values after the round |
| Navigator.Round | ArcadiaEngine.cpp:785-804 | round k turns the matrix after round k − 1 into the matrix after round k |
| Navigator.SumPairs | ArcadiaEngine.cpp:810-821 | the sum over i < j of the final entries below INF |
| Navigator.ToBinary | ArcadiaEngine.cpp:829-841 | the push-and-reverse loop returns the rendering of the total |
| Navigator.SumMinDistancesBinary | ArcadiaEngine.cpp:747-842 | "0" for n ≤ 0; always binary digits; with no negative road, the rendering of the sum over i < j of the distances below INF |
| Navigator.LineRound0 | rawda_tests.cpp:66-70 | the matrix before the rounds for roads 0 → 1 (1) and 1 → 2 (2) |
| Navigator.LineShortest | rawda_tests.cpp:66-70 | those roads give the distances 1, 3 and 2 |
| Navigator.LineTotal | rawda_tests.cpp:66-70 | their sum is 6 |
| Navigator.LineExample | ideone_opnWRl.cpp:345-353 | the sample gives "110" |
| Kernel.Letter | ArcadiaEngine.cpp:870 | bucket b holds the letter 'A' + b |
| Kernel.MaxFreqUpToIsMax | ArcadiaEngine.cpp:875-878 | the running maximum bounds the first b buckets and, for b > 0, one of them attains it |
| Kernel.MaxFreqIsMax | ArcadiaEngine.cpp:874-878 | max_freq is the count of the most frequent task letter |
| Kernel.IntervalsAtLeastTasks | ArcadiaEngine.cpp:906 | the schedule is never shorter than the task list |
| Kernel.MinIntervals | ArcadiaEngine.cpp:858-906 | \|tasks\| for n = 0; otherwise max((max_freq − 1)·(n + 1) + count_max_freq, \|tasks\|) over the 26 buckets |
| Kernel.EmptyBuckets | ArcadiaEngine.cpp:876-886 | buckets with no tasks change neither the maximum nor the count of a positive frequency |
| Kernel.ExampleAAB | ideone_opnWRl.cpp:391-394 | {A, A, B} with n = 2 gives 4 |
| Kernel.ExampleAAA | ideone_opnWRl.cpp:396-399 | {A, A, A} with n = 2 gives 7 |
| Kernel.ExampleAAABBB | ideone_opnWRl.cpp:405-408 | {A, A, A, B, B, B} with n = 2 gives 8 |
| Kernel.NoTasks | ArcadiaEngine.cpp:876-886 | with no tasks the maximum is 0 and every bucket ties at it |
| Kernel.EmptyTasks | ArcadiaEngine.cpp:875-906 | with no tasks and n ≠ 0 the result is max(26 − (n + 1), 0), not 0 |

## Left out

- `ConcreteAuctionTree` (ArcadiaEngine.cpp:378-397): every method is an unimplemented stub, so there is no behaviour to model.
- `maximizeCarryValue` (ArcadiaEngine.cpp:474-479): a stub that returns 0.
- `randomLevel` and `srand(time)` (ArcadiaEngine.cpp:140-150, 185): the new node's level is a parameter of `SkipList.Leaderboard.AddScore`, limited to 0..16, so every level the coin flips could produce is covered.
- `display`, `printList`, the "Table is Full" message (line 74) and all console output: I/O is not modelled. `Players.PlayerTable.Insert` returns false where the code prints.
- The destructor and `delete` (lines 189-201, 335): memory is not modelled. Removed nodes stay in the arena, unreachable.
- The test drivers: they are used only as the source of the worked examples.
- Players.PlayerTable.Insert: requires a key ≥ 0. A negative key gives a negative slot index in `hash1` (line 38), which is undefined behaviour.
- Players.PlayerTable.Search: requires a key ≥ 0, for the same reason.
- SkipList.Leaderboard.AddScore: scores are unbounded. The 32-bit overflow of `existing->score + score` (line 227) is not modelled.
- Inventory.OptimizeLootSplit: requires non-negative coins. A negative coin makes `dp[j - val]` index past the table. The `long long` total and the `int` cast of the result are not modelled.
- Inventory.CountStringPossibilities: the `long long` table is unbounded. Every entry stays below 10^9 + 7, so no overflow arises anyway.
- Kernel.MinIntervals: requires every task to be a letter 'A'..'Z'. Other characters index `freq` out of range (line 870).
- Navigator.MinBribeCost: requires every road of the first m to have four fields and endpoints in 0..n−1, and m ≤ |roadData|. The code indexes `adj` and `roadData` unchecked (lines 639-646).
- Navigator.MinBribeCost: requires n ≥ 0. A negative n throws when `adj` is sized (line 636), and that exception path is not modelled.
- Navigator.MinBribeCost: the returned cost is proved to be the cost of a spanning tree, not the least one. Minimality of Prim's tree is not proved. With negative rates or fields a tree may cost exactly −1, so only under non-negative rates and fields (`Priced`) does the contract give −1 if and only if the kingdom is disconnected.
- Navigator.MinBribeCost: the heap is a sequence with extract-min (`PopMin`), and `visited` is a sequence of booleans rather than an array. `long long` costs are unbounded.
- Navigator.SumMinDistancesBinary: the contract ties the result to `Total` only when no accepted road has a negative weight. For other inputs it states only that the result is a string of binary digits. A negative total renders as "", as the code's loop produces.
- Navigator.SumMinDistancesBinary: the `dist` matrix is a sequence of sequences that each step replaces, not a vector updated in place. `long long` distances and the `__int128` total are unbounded. `value & 1` and `value >>= 1` are written as `% 2` and `/ 2`, which agree for the positive values the loop sees.
- Navigator.PathExists: the `queue` is a sequence.
