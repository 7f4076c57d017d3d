# Google Foobar puzzle solutions, modelled and verified in Dafny

This project models a set of Google Foobar puzzle solvers and proves what each
one computes. It keeps each solver's own form. Code that updates state step by
step is written as Dafny methods with loops and loop invariants. Recursive
definitions become functions and lemmas.

The main part is the maximum-flow solver of Escape Pods (`escape_pods.dfy`):
- `AddSupersourceAndSupersink` builds a fresh `array2` network. It adds a
  supersource at index 0 and a supersink at index n + 1, and shifts every
  corridor up by one.
- `BreadthFirstSearch` is a first-in-first-out search over edges with positive
  residual. It fills a predecessor array.
- `EdmondsKarp` repeatedly pushes the bottleneck of the path it found. Each push
  lowers the forward residuals and raises the reverse ones, in place.

What is proved for the solver:
- The residual matrix stays non-negative.
- Every pair of opposite edges keeps its total.
- Every inner node passes on what it receives.
- The flow reported has left the source and reached the sink.
- When the loop stops, the sink is unreachable.
- The flow is then maximal: it equals the capacity of the cut formed by the
  nodes still reachable from the source (max-flow min-cut, `cut.dfy`), and it
  is bounded by the corridors leaving the entrances and by those entering the
  exits.

The other modules are independent puzzles:
- Running with Bunnies (`running_with_bunnies.dfy`): Floyd–Warshall followed by
  a search over bunny subsets and their orderings.
- Prepare the Bunnies' Escape, in two versions: `prepare_bunnies.dfy` and
  `prepare_bunnies_first.dfy`, with shared grid definitions in `grid.dfy`.
  Both are grid breadth-first searches with a wall budget.
- Bomb, Baby! (`bomb_baby.dfy`): a reverse walk sped up by Euclid's division.
- The Grandest Staircase of Them All (`grandest_staircase.dfy`): memoised
  counting of partitions into distinct parts.
- Disorderly Escape (`disorderly_escape.dfy`): a Burnside count over the cycle
  types of row and column permutations.
- Expanding Nebula, in two versions: the dynamic-programming solution
  (`expanding_nebula.dfy`) and the brute-force solution
  (`expanding_nebula_bruteforce.dfy`). Both use the shared preimage machinery
  in `nebula.dfy`.
- Numbers Station Coded Messages (`numbers_station.dfy`): a two-pointer search
  for a window of codes.
- En Route Salute (`en_route_salute.dfy`): counting salutes in a hallway.
- The Cake is Not a Lie (`cake.dfy`): splitting a string into the largest
  number of equal pieces.

`common.dfy` holds the shared `Option` type and sequence sums; `cut.dfy` holds
the cut capacities of a matrix and the sums behind max-flow min-cut.

The sources are Python 2. Their `/` on integers is floor division. Dafny's `/`
agrees with it for the positive divisors that occur here. Python's unbounded
integers map to Dafny's `int`.

## Model

| member | source | states |
|---|---|---|
| EscapePods.AddSupersourceAndSupersink | escape-pods/solution.py:81-117 | Returns a fresh (n+2)×(n+2) matrix. Column 0 is zero and the supersink row is zero. Row 0 holds the sentinel exactly at s+1 for each source s. Row i+1 holds the sentinel in the last column exactly when i is a sink. Every other cell (i+1, j+1) is graph[i][j]. |
| EscapePods.SupergraphUnique | escape-pods/solution.py:81-117 | The network is determined by the corridors, the entrances, the exits and the sentinel: two matrices that both fit the construction are equal. |
| EscapePods.SupergraphNonNegative | escape-pods/solution.py:81-117 | The network built is non-negative when the corridors and the sentinel are. |
| EscapePods.BreadthFirstSearch | escape-pods/solution.py:120-142 | Leaves the graph unchanged. The nodes it reaches form a predecessor tree over positive edges and are closed under positive edges. It returns true exactly when the sink is reachable from the source. Predecessor entries of unreached nodes keep their old values. |
| EscapePods.ClosedSetHoldsReachable | escape-pods/solution.py:131-142 | A node set closed under positive edges that holds the source holds everything reachable from it. This is why a search that did not mark the sink proves it unreachable. |
| EscapePods.TreeNodesAreReachable | escape-pods/solution.py:136-139 | Every node recorded in the predecessor tree is reachable from the source. |
| EscapePods.AugmentingWalk | escape-pods/solution.py:157-161 | Following the predecessors from the sink gives a walk that ends at the source. The walk visits no node twice, and every step along it has positive residual. |
| EscapePods.PathBottleneck | escape-pods/solution.py:152-161 | The bottleneck is positive, no larger than any edge on the path, and equal to one of them. |
| EscapePods.PushFlow | escape-pods/solution.py:179-180 | One step of the update moves `f` from edge (p, c) to edge (c, p). |
| EscapePods.AugmentPath | escape-pods/solution.py:176-181 | The update loop leaves exactly `Augment(old matrix, path, pathFlow)`. |
| EscapePods.AugmentKeepsPairSums | escape-pods/solution.py:176-181 | Augmenting keeps graph[u][v] + graph[v][u] for every pair. |
| EscapePods.AugmentKeepsNonNegative | escape-pods/solution.py:176-181 | Pushing at most the bottleneck along a path without repeated nodes keeps every entry non-negative. |
| EscapePods.AugmentLeavesOthers | escape-pods/solution.py:176-181 | Entries off the path are untouched. |
| EscapePods.AugmentOnlyRaisesOffPath | escape-pods/solution.py:176-181 | An entry whose target is not an interior or final node of the path never decreases. |
| EscapePods.AugmentRowSums | escape-pods/solution.py:176-181 | Each inner node's row sum is kept. The sink's row gains `f` and the source's row loses `f`. |
| EscapePods.AugmentAddsFlow | escape-pods/solution.py:163-181 | One round of augmentation keeps the flow bookkeeping and adds the bottleneck to the flow. |
| EscapePods.AugmentAlongSearchPath | escape-pods/solution.py:152-181 | After a successful search, one loop round pushes a positive bottleneck and keeps the bookkeeping with flow + pathFlow. |
| EscapePods.NoFlowYet | escape-pods/solution.py:147-148 | Before the loop the bookkeeping holds with zero flow. |
| EscapePods.FlowBoundedByOutflow | escape-pods/solution.py:163 | The flow never exceeds the source row's original capacity. Row 0 decreases by every push, which is the loop's termination measure. |
| EscapePods.FlowBoundedByInflow | escape-pods/solution.py:163 | The flow never exceeds the original capacity into the sink. |
| Cuts.Fubini | escape-pods/solution.py:176-181 | A block of the matrix (rows on one side, columns on another) sums to the same total by rows and by columns. |
| Cuts.InsideKept | escape-pods/solution.py:176-181 | When every pair sum m[i][j] + m[j][i] is kept, the total of the edges inside one side of a cut is kept. |
| Cuts.CutChange | escape-pods/solution.py:176-181 | When every pair sum is kept, the capacity a cut loses equals what the rows on its source side lose. |
| Cuts.CutNonNegative | escape-pods/solution.py:176-181 | A cut of non-negative capacities is non-negative. |
| Cuts.CutZero | escape-pods/solution.py:141 | A cut that no edge crosses has capacity zero. |
| Cuts.CrossingAtMostCut | escape-pods/solution.py:176-181 | With non-negative capacities, each edge crossing a cut is at most the cut's capacity. |
| EscapePods.SideSumsFlow | escape-pods/solution.py:163-181 | On the source's side of a cut, the row totals have lost exactly the flow, because every inner node passes on what it receives. |
| EscapePods.FlowAcrossCut | escape-pods/solution.py:163-181 | Every cut with the source on one side and the sink on the other carries the whole flow. The flow equals the cut's original capacity minus its residual capacity, so it never exceeds the original capacity. |
| EscapePods.MaxFlowMinCut | escape-pods/solution.py:150-183 | When no augmenting path remains, the nodes reachable from the source form a cut whose original capacity equals the flow. No flow from the same network exceeds it. |
| EscapePods.EdmondsKarp | escape-pods/solution.py:145-183 | On return the flow bookkeeping holds for maxFlow and the sink is unreachable in the residual graph, with 0 <= maxFlow <= the source's original row sum. maxFlow is a maximum flow of the original network and equals the capacity of some cut. |
| EscapePods.SupergraphRow | escape-pods/solution.py:95-111 | Row i+1 of the network is [0] followed by room i's corridors and then the sentinel exactly when i is an exit. |
| EscapePods.SupergraphColumn | escape-pods/solution.py:86-111 | Column t+1 of the network is the sentinel exactly when t is an entrance, then the corridors into room t, then 0. |
| EscapePods.EntranceCapacityBelowTotal | escape-pods/solution.py:89-91 | Counting each entrance's corridors once never exceeds the sum of all corridors. |
| EscapePods.EntranceCut | escape-pods/solution.py:81-117 | The supersource together with the entrances is a cut whose capacity is at most the corridors leaving the entrances, when no room is both an entrance and an exit. |
| EscapePods.ExitCut | escape-pods/solution.py:81-117 | The supersink together with the exits is a cut whose capacity is at most the corridors entering the exits, under the same condition. |
| EscapePods.NetworkBounds | escape-pods/solution.py:185-189 | A completed run on the network yields a maximum flow. The flow equals the capacity of a cut that crosses no sentinel edge, and it is bounded by the corridors leaving the entrances and by those entering the exits. |
| EscapePods.TotalCapacityNonNegative | escape-pods/solution.py:89-105 | The integer standing in for the unbounded sentinel is positive. |
| EscapePods.Solution | escape-pods/solution.py:185-189 | Builds the network from the caller's matrix and runs Edmonds–Karp on that copy. The result is a maximum flow of the network. It equals the capacity of a cut none of whose crossing edges reaches the sentinel, and it is at most the corridor capacity leaving the entrances and at most the capacity entering the exits. |
| EscapePods.SixBunnies | escape-pods/solution.py:193-198 | Whatever Solution returns for the first official case (entrance 0, exit 3, four rooms in a ring) is 6. The proof uses a cut of capacity 6 for the upper bound and a residual network carrying 6 for the lower bound. |
| EscapePods.SixteenBunnies | escape-pods/solution.py:199-206 | Whatever Solution returns for the second official case (entrances 0 and 1, exits 4 and 5) is 16, proved the same way with a cut of capacity 16. |
| RunningWithBunnies.DirectWalks | running-with-bunnies/solution.py:89 | The copied matrix starts with every entry witnessed by the direct edge. |
| RunningWithBunnies.Detour | running-with-bunnies/solution.py:114-115 | Going through k joins two walks into a walk from i to j whose cost is the sum. |
| RunningWithBunnies.UpdateCell | running-with-bunnies/solution.py:114-115 | Writing a cheaper witnessed cost keeps every entry witnessed and no larger than the direct edge. |
| RunningWithBunnies.RelaxCell | running-with-bunnies/solution.py:114-115 | One relaxation leaves entry (i, j) no larger than before and no larger than the detour d[i][k] + d[k][j], keeps every entry the cost of a walk, and changes no other entry. |
| RunningWithBunnies.RelaxRow | running-with-bunnies/solution.py:113-116 | After relaxing row i through k, every entry (i, j) is at most its old value and at most the old d[i][k] + d[k][j]. Every entry stays the cost of an actual walk, and no other row changes. |
| RunningWithBunnies.NegativeDiagonal | running-with-bunnies/solution.py:117-119 | A negative diagonal entry proves a negative-cost cycle. |
| RunningWithBunnies.WitnessedAchieved | running-with-bunnies/solution.py:121 | Entries that are walk costs give shortest-path bounds. |
| RunningWithBunnies.FloydWarshall | running-with-bunnies/solution.py:86-121 | None only when the graph has a negative cycle. Otherwise the matrix is square, each entry is the cost of a walk and is at most the direct edge. |
| RunningWithBunnies.RangeMembers | running-with-bunnies/solution.py:133 | range(lo, hi) holds exactly lo..hi-1, each once. |
| RunningWithBunnies.RouteTime | running-with-bunnies/solution.py:149-159 | The time loop computes the cost of start → bunnies in order → bulkhead. |
| RunningWithBunnies.ArrangementsSound | running-with-bunnies/solution.py:148 | Every r-permutation has length r, distinct entries and only entries of the pool. |
| RunningWithBunnies.ArrangementsComplete | running-with-bunnies/solution.py:148 | Every sequence of distinct pool entries is among the permutations of its length. |
| RunningWithBunnies.ArrangementsTooLong | running-with-bunnies/solution.py:148 | There are no permutations longer than the pool. |
| RunningWithBunnies.SortIncreasing | running-with-bunnies/solution.py:163 | Sorting distinct ids gives a strictly increasing sequence. The same ids are kept, which the sort's own contract states. |
| RunningWithBunnies.SearchArrangements | running-with-bunnies/solution.py:148-163 | Finds a permutation of the given size within the limit, or proves that every one exceeds it. |
| RunningWithBunnies.FoundRoute | running-with-bunnies/solution.py:161-163 | A route within the limit, with no longer route fitting, gives a sorted rescue list of the largest size. |
| RunningWithBunnies.SavedIds | running-with-bunnies/solution.py:163 | The result holds the route's bunnies shifted down by one, all in [0, num_bunnies). |
| RunningWithBunnies.Solution | running-with-bunnies/solution.py:124-167 | When the negative-diagonal check fires (which proves a negative-cost cycle) or there are no bunnies, all bunnies are saved. Otherwise the result is strictly increasing ids in [0, num_bunnies) whose route fits the limit, and no larger set fits. It is [] when none fits. |
| Grid.Neighbors | prepare-the-bunnies-escape/solution.py:5-20 | At most four cells, each in bounds and orthogonally adjacent, none repeated. Every such cell is listed. |
| Grid.ExtendWalk | prepare-the-bunnies-escape/solution.py:52-53 | Stepping to an adjacent cell extends a walk, and its wall count grows by one exactly when the cell is a wall. |
| PrepareTheBunniesEscape.AdmittedMembers | prepare-the-bunnies-escape/solution.py:59-63 | The states queued for the neighbours are exactly those whose recorded count is not below the popped state's wall count. Each carries that count and the given step number. |
| PrepareTheBunniesEscape.AdmittedWitnessed | prepare-the-bunnies-escape/solution.py:59-63 | Every newly queued state is witnessed by the popped state's walk extended by one step, and the queue stays levelled by step count. |
| PrepareTheBunniesEscape.PopState | prepare-the-bunnies-escape/solution.py:48-53 | A popped state has no fewer steps than the previous one (first in, first out). |
| PrepareTheBunniesEscape.QueueNeighbors | prepare-the-bunnies-escape/solution.py:59-63 | The new queue is the admitted neighbour states pushed on the left of the old one. Each admitted neighbour's recorded count becomes the popped state's wall count, and every other recorded count is unchanged. |
| PrepareTheBunniesEscape.ExploreStep | prepare-the-bunnies-escape/solution.py:48-63 | One iteration keeps the search invariant. Every cell recorded under num_walls has been queued, and each cell's best visit is queued or handled. Each handled visit has recorded and queued its neighbours and was not an escape. |
| PrepareTheBunniesEscape.QueuedAlong | prepare-the-bunnies-escape/solution.py:48-63 | Once the queue is empty, each cell of a walk from the corner that stays within num_walls walls was queued with no more walls than the walk passes before it. |
| PrepareTheBunniesEscape.NoRouteWithin | prepare-the-bunnies-escape/solution.py:48-75 | Once the queue is empty, every walk from the corner to the exit passes more than num_walls walls. |
| PrepareTheBunniesEscape.Bfs | prepare-the-bunnies-escape/solution.py:22-75 | An escape of length L means a walk of L cells from the corner to the exit through at most num_walls walls. The None answer (`Trapped`) means every such walk passes more than num_walls walls. |
| PrepareTheBunniesEscape.Solution | prepare-the-bunnies-escape/solution.py:77-79 | An answer of L means a walk of L cells through at most one wall. None means every walk from the corner to the exit passes at least two walls. |
| PrepareTheBunniesEscapeFirstAttempt.PotentialNonNegative | prepare-the-bunnies-escape/solution-first-attempt.py:38 | The termination measure is non-negative. It allows two more queue admissions per unmarked cell and one per cell marked only one way. |
| PrepareTheBunniesEscapeFirstAttempt.MarkBoth | prepare-the-bunnies-escape/solution-first-attempt.py:49-53 | Raising a NO_WALL or WALL mark to BOTH keeps the marks consistent, never lowers a mark, and lowers the measure by one. |
| PrepareTheBunniesEscapeFirstAttempt.MarkNew | prepare-the-bunnies-escape/solution-first-attempt.py:54-66 | The first mark of a cell is WALL for a wall cell. Marking keeps consistency and lowers the measure by one. |
| PrepareTheBunniesEscapeFirstAttempt.MarkNeighbor | prepare-the-bunnies-escape/solution-first-attempt.py:49-66 | One neighbour is queued exactly when it gets a new mark. A cell marked the other way becomes BOTH; an unmarked cell gets WALL if it is a wall and the flag's mark otherwise, unless it is a wall reached after a wall. The new marks are the old ones with that one change; they stay consistent and only rise, and each admission costs one unit of measure. |
| PrepareTheBunniesEscapeFirstAttempt.QueuedMembers | prepare-the-bunnies-escape/solution-first-attempt.py:46-66 | The entries queued for a popped state are exactly its neighbours that get a new mark. Each has one more step, and its flag is set when the neighbour is a wall or the parent had passed a wall. |
| PrepareTheBunniesEscapeFirstAttempt.NeighborStep | prepare-the-bunnies-escape/solution-first-attempt.py:46-66 | Handling the next neighbour extends both the queued entries and the new marks from the first i neighbours to the first i+1. The neighbours are distinct, so an earlier one never changes a later one's mark. |
| PrepareTheBunniesEscapeFirstAttempt.VisitNeighbors | prepare-the-bunnies-escape/solution-first-attempt.py:46-66 | The new open list is exactly the entries admitted for the neighbours, inserted at the front of the old list. The new marks are exactly the old ones, updated by each neighbour's new mark. Marks stay consistent and only rise, and the measure plus the open list does not grow. |
| PrepareTheBunniesEscapeFirstAttempt.QueuedWitnessed | prepare-the-bunnies-escape/solution-first-attempt.py:52-53 | Each queued entry is witnessed by its parent's walk extended by the neighbour. From an open start, the walk passes one wall exactly when the entry's flag is set. |
| PrepareTheBunniesEscapeFirstAttempt.PopEntry | prepare-the-bunnies-escape/solution-first-attempt.py:41 | Popping the last open entry hands over its witnessing walk and leaves the rest witnessed. |
| PrepareTheBunniesEscapeFirstAttempt.PendingStep | prepare-the-bunnies-escape/solution-first-attempt.py:46-66 | After a pop, every possible search state whose mark is set is still open or already handled. |
| PrepareTheBunniesEscapeFirstAttempt.ClosedStep | prepare-the-bunnies-escape/solution-first-attempt.py:43-66 | Each handled state was not at the exit. Every neighbour it may step to carries the mark for the flag it would reach it with, or BOTH. |
| PrepareTheBunniesEscapeFirstAttempt.ExploreStep | prepare-the-bunnies-escape/solution-first-attempt.py:40-66 | One iteration of the loop keeps both parts of the search invariant when the start is open floor. |
| PrepareTheBunniesEscapeFirstAttempt.VisitKeeps | prepare-the-bunnies-escape/solution-first-attempt.py:40-66 | One iteration keeps every open entry witnessed, and keeps the search invariant when the start is open. |
| PrepareTheBunniesEscapeFirstAttempt.MarkedAlong | prepare-the-bunnies-escape/solution-first-attempt.py:40-66 | Once the open list is empty, each cell of a walk from an open start is marked for the flag the walk reaches it with, as long as the walk has passed at most one wall. |
| PrepareTheBunniesEscapeFirstAttempt.NoRouteWithin | prepare-the-bunnies-escape/solution-first-attempt.py:40-67 | Once the open list is empty, every walk from an open start to the exit passes at least two walls. |
| PrepareTheBunniesEscapeFirstAttempt.Bfs | prepare-the-bunnies-escape/solution-first-attempt.py:22-67 | Terminates. A step count returned is the length of a walk from start to end, through at most one wall when the start is open. When None is returned from an open start, no walk passes at most one wall. |
| PrepareTheBunniesEscapeFirstAttempt.Solution | prepare-the-bunnies-escape/solution-first-attempt.py:69-80 | The same two guarantees from the top-left corner to the bottom-right cell. |
| BombBaby.ReverseStepsExact | bomb-baby/solution.py:52-65 | The slow reverse walk returns k exactly when (mach, facula) is produced from (1, 1) in k generations. |
| BombBaby.OneLeft | bomb-baby/solution.py:108-110 | From (m, 1) or (1, m) the walk back takes m - 1 generations. |
| BombBaby.DivideMach | bomb-baby/solution.py:72-84 | When mach is q copies of facula plus a remainder r below facula, one division step to (r, facula) equals q single-subtraction steps of the slow walk. |
| BombBaby.DivideFacula | bomb-baby/solution.py:119-124 | The same for the facula count. |
| BombBaby.ReverseDivide | bomb-baby/solution.py:103-126 | The division-accelerated loop answers what the slow reverse walk answers, 'impossible' included. |
| BombBaby.SolutionAsWritten | bomb-baby/solution.py:87-126 | As written: equal counts give 'impossible', including (1, 1). Other pairs get the reverse walk's answer. |
| BombBaby.StartPairNeedsNoGenerations | bomb-baby/solution.py:88-89 | (1, 1) is reached after exactly zero generations, so the guard's 'impossible' is wrong there. |
| BombBaby.Solution | bomb-baby/solution.py:87-126 | The answer is Generations(k) exactly when (x, y) is reached in k generations, and 'impossible' exactly when it is never reached. |
| BombBaby.ReachedExactlyAt | bomb-baby/solution.py:52-65 | A pair the reverse walk brings back in n generations is reached after n generations and no other number. |
| BombBaby.FirstOfficialCase | bomb-baby/solution.py:130 | ('2', '1') is reached after exactly one generation. |
| BombBaby.SecondOfficialCase | bomb-baby/solution.py:131 | ('4', '7') is reached after exactly four generations. |
| BombBaby.UnreachablePair | bomb-baby/solution.py:136 | ('2', '4') is never reached. |
| GrandestStaircase.StaircasesCountPartitions | the-grandest-staircase-of-them-all/solution.py:32-51 | The recurrence counts the listed partitions of `remaining` into distinct parts of at least `height`. |
| GrandestStaircase.PartitionsSound | the-grandest-staircase-of-them-all/solution.py:13-19 | Every listed sequence is strictly increasing, starts at or above `height`, and sums to `remaining`. |
| GrandestStaircase.PartitionsComplete | the-grandest-staircase-of-them-all/solution.py:13-19 | Every such sequence is listed. |
| GrandestStaircase.PartitionsListedOnce | the-grandest-staircase-of-them-all/solution.py:13-19 | No partition is listed twice. |
| GrandestStaircase.CalcNumStaircases | the-grandest-staircase-of-them-all/solution.py:28-54 | Returns the recurrence's value, and every written cache entry equals it. Indices stay within [0, n+1]. |
| GrandestStaircase.CalcNumStaircasesMemoised | the-grandest-staircase-of-them-all/solution.py:25-56 | The result is one less than the number of partitions of n into distinct parts. |
| GrandestStaircase.SingleStepListed | the-grandest-staircase-of-them-all/solution.py:21-23 | The single step {n} is among those partitions, which is why one is subtracted. |
| GrandestStaircase.Solution | the-grandest-staircase-of-them-all/solution.py:81-82 | The number of staircases is the number of distinct-part partitions of n minus one. |
| GrandestStaircase.SmallCounts | the-grandest-staircase-of-them-all/solution.py:86-88 | The recurrence gives 1, 1 and 2 staircases for 3, 4 and 5 bricks. |
| DisorderlyEscape.GcdGreatestCommonDivisor | disorderly-escape/solution.py:133 | gcd divides both arguments, and every common divisor divides it. |
| DisorderlyEscape.PartitionsExact | disorderly-escape/solution.py:78-88 | partitions(0) is exactly [[]]. partitions(n) lists exactly the non-decreasing positive sequences summing to n, each once. |
| DisorderlyEscape.GrowSound | disorderly-escape/solution.py:85-88 | Each sequence produced from a partition of n - 1 is a partition of n. |
| DisorderlyEscape.GrowComplete | disorderly-escape/solution.py:85-88 | Every partition of n is produced from some partition of n - 1. |
| DisorderlyEscape.GrowDistinct | disorderly-escape/solution.py:85-88 | No partition is produced twice. |
| DisorderlyEscape.KeysExact | disorderly-escape/solution.py:101-107 | The keys of the frequency dictionary are the parts, each once. |
| DisorderlyEscape.CountParts | disorderly-escape/solution.py:101-107 | Maps exactly the parts of the partition to how often each occurs. |
| DisorderlyEscape.ConjugacyClassSize | disorderly-escape/solution.py:97-115 | n! divided by the product of k^f · f! over the part multiplicities f_k. |
| DisorderlyEscape.IdentityClass | disorderly-escape/solution.py:97-115 | The all-ones cycle type (the identity) has class size 1. |
| DisorderlyEscape.CycleClass | disorderly-escape/solution.py:97-115 | A single n-cycle type has class size (n - 1)!. |
| DisorderlyEscape.FixedPointsExponentOf | disorderly-escape/solution.py:129-133 | The gcd loop sums gcd(m, n) over every column part m and row part n. |
| DisorderlyEscape.Solution | disorderly-escape/solution.py:118-139 | The result is the Burnside total over all pairs of a column and a row cycle type, divided by w!·h!. |
| DisorderlyEscape.SingleCell | disorderly-escape/solution.py:118-139 | A 1×1 grid with s states has s configurations. |
| DisorderlyEscape.SmallPartitions | disorderly-escape/solution.py:78-88 | partitions(2) and partitions(3) are listed in the generator's order. |
| DisorderlyEscape.SquareCase | disorderly-escape/solution.py:144 | The official case (2, 2, 2) gives 7. |
| Nebula.Preimages | expanding-nebula/solution.py:82-119 | Every block listed for gas evolves into gas, and every block listed for empty evolves into empty. |
| Nebula.PreimagesCounted | expanding-nebula/solution.py:82-119 | Four blocks for gas and twelve for empty, none listed twice. |
| Nebula.PreimagesComplete | expanding-nebula/solution.py:82-119 | Every 2×2 block is listed under the cell it evolves into. |
| Nebula.ColumnToInt | expanding-nebula/solution.py:74-80 | The loop computes the binary encoding with bit i set exactly when cell i has gas. |
| Nebula.DecodeEncode | expanding-nebula/solution.py:74-80 | The encoding is below 2^len and decodes back to the column. |
| Nebula.EncodeDecode | expanding-nebula/solution.py:74-80 | Every number below 2^len is the encoding of the column it decodes to. |
| Nebula.EncodeInjective | expanding-nebula/solution.py:74-80 | Columns of equal length with equal encodings are equal. |
| Nebula.ExtendStacks | expanding-nebula/solution.py:137-142 | One extension step appends a block's second row to every stack whose last row is the block's first row. |
| Nebula.StacksExact | expanding-nebula/solution.py:128-142 | The stacks built are exactly the stacks of n + 1 two-cell rows whose consecutive row pairs evolve into the column's cells, none listed twice. |
| Nebula.StackPreimages | expanding-nebula/solution.py:128-142 | The loop produces exactly those stacks. |
| Nebula.PairsExact | expanding-nebula/solution.py:144-148 | [l, r] is produced exactly when both are below 2^(n+1) and the columns they decode to, side by side, form such a stack. |
| Nebula.PairsDistinct | expanding-nebula/solution.py:144-148 | No pair is produced twice. |
| Nebula.PossibleColumnPairs | expanding-nebula/solution.py:144-148 | The encoding loop produces exactly those pairs. |
| ExpandingNebula.GroupMembers | expanding-nebula/solution.py:153-161 | A key of the map has the column's code first. r is listed under (code, l) exactly when [l, r] is a pair. |
| ExpandingNebula.CreatePossibleColumnPairs | expanding-nebula/solution.py:125-163 | Returns the pairs grouped by (column code, left column). |
| ExpandingNebula.MergeItems | expanding-nebula/solution.py:180-181 | After merging, each key's set is the old set plus the new values. |
| ExpandingNebula.BuildValidPossibleCols | expanding-nebula/solution.py:176-181 | After the construction, every column's pairs are filed under its code and no unrelated entry appears. |
| ExpandingNebula.Lookup | expanding-nebula/solution.py:189 | For equal-height columns, r is found under (code of column j, p) exactly when [p, r] is a pair of column j. |
| ExpandingNebula.StepCounts | expanding-nebula/solution.py:187-190 | One step adds counts[p] into every next column r with [p, r] a pair. |
| ExpandingNebula.CountPreimages | expanding-nebula/solution.py:184-192 | The loop computes the counts of the DP over the whole pair table, starting from 1 for every column. |
| ExpandingNebula.CountsAgree | expanding-nebula/solution.py:184-194 | The sum of the DP counts equals the number of chains the brute-force solution builds. |
| ExpandingNebula.Solution | expanding-nebula/solution.py:166-194 | The result is the sum of the DP counts. For a non-empty grid it is the length of the list of chains of compatible column pairs, a list with no chain twice, so the result counts distinct chains. |
| ExpandingNebulaBruteForce.JoinMembers | expanding-nebula/bruteforce-solution.py:175-181 | A state is produced exactly when it is an old state extended by a pair whose left column equals the state's last column. |
| ExpandingNebulaBruteForce.JoinStates | expanding-nebula/bruteforce-solution.py:175-181 | The join loop produces exactly those states. |
| ExpandingNebulaBruteForce.ChainsExact | expanding-nebula/bruteforce-solution.py:169-181 | A sequence survives exactly when it is one pair per column, two entries each, with consecutive pairs sharing a column. |
| ExpandingNebulaBruteForce.ChainsPrefix | expanding-nebula/bruteforce-solution.py:169-181 | The chains of the first i + 1 columns are the chains of the first i joined with column i's pairs. |
| ExpandingNebulaBruteForce.JoinOneDistinct | expanding-nebula/bruteforce-solution.py:177-179 | If no pair is listed twice, extending one state by each fitting pair lists no sequence twice. |
| ExpandingNebulaBruteForce.JoinDistinct | expanding-nebula/bruteforce-solution.py:175-181 | If no state and no pair is listed twice, the join lists no sequence twice. |
| ExpandingNebulaBruteForce.ChainsDistinct | expanding-nebula/bruteforce-solution.py:169-181 | If no column lists a pair twice, no chain is built twice. |
| ExpandingNebulaBruteForce.PairTableDistinct | expanding-nebula/bruteforce-solution.py:169-173 | No column's pair list holds a pair twice. |
| ExpandingNebulaBruteForce.CountChains | expanding-nebula/bruteforce-solution.py:169-183 | The loop counts exactly the surviving chains. |
| ExpandingNebulaBruteForce.Solution | expanding-nebula/bruteforce-solution.py:166-183 | The result is the length of the list of chains over the grid's columns, and no chain is in that list twice, so the result counts distinct chains. |
| NumbersStation.Overshoot | numbers-station-coded-messages/solution.py:23-26 | With non-negative codes, once a window overshoots the key, every longer window from the same start does too. |
| NumbersStation.Undershoot | numbers-station-coded-messages/solution.py:10-14 | When the window to the end stays below the key, so does every window starting later. |
| NumbersStation.Solution | numbers-station-coded-messages/solution.py:4-28 | The result is [-1, -1] or a window [a, b] with 0 <= a <= b < len and sum t. For non-negative codes, [-1, -1] only when no window fits, and otherwise the window that starts first. |
| NumbersStation.NoWindowForFifteen | numbers-station-coded-messages/solution.py:32 | [1, 2, 3, 4] with key 15 gives [-1, -1]. |
| NumbersStation.FirstWindowForTwelve | numbers-station-coded-messages/solution.py:33 | [4, 3, 10, 2, 8] with key 12 gives [2, 3]. |
| EnRouteSalute.CrossingsAreEncounters | en-route-salute/solution.py:14-20 | The running count equals the number of pairs i < j with '>' at i and '<' at j. |
| EnRouteSalute.OtherCharacter | en-route-salute/solution.py:14-16 | A '-' (or any other character) changes no count. |
| EnRouteSalute.Solution | en-route-salute/solution.py:3-22 | The result is twice the number of such pairs. |
| EnRouteSalute.AssertedCases | en-route-salute/solution.py:26-31 | The asserted hallways give 2, 4, 10 and 0. |
| CakeIsNotALie.CountTiles | the-cake-is-not-a-lie/solution.py:5-12 | The occurrences counted never take more room than the string. When they fill it, the string is the prefix repeated. |
| CakeIsNotALie.RepeatCount | the-cake-is-not-a-lie/solution.py:5-6 | A string that is the prefix repeated k times has exactly k counted occurrences. |
| CakeIsNotALie.Solution | the-cake-is-not-a-lie/solution.py:3-15 | The result is at least 1. For a non-empty cake it is a number of equal pieces the cake splits into, and no larger number works. |
| CakeIsNotALie.FourPieces | the-cake-is-not-a-lie/solution.py:19 | "abcabcabcabc" gives 4. |
| CakeIsNotALie.TwoPieces | the-cake-is-not-a-lie/solution.py:20 | "abccbaabccba" gives 2. |
| CakeIsNotALie.OnePieceOfOne | the-cake-is-not-a-lie/solution.py:23 | "a" gives 1. |
| CakeIsNotALie.ThreeOfThree | the-cake-is-not-a-lie/solution.py:24 | "aaa" gives 3. |
| CakeIsNotALie.TwoOfFour | the-cake-is-not-a-lie/solution.py:25 | "abab" gives 2. |
| CakeIsNotALie.Unsplit | the-cake-is-not-a-lie/solution.py:12-15 | A cake of three or five M&Ms whose first three are not all alike is one piece. |
| CakeIsNotALie.OnePieceEach | the-cake-is-not-a-lie/solution.py:26-28 | "aba", "aab" and "ababc" each give 1. |

## Left out

- EscapePods.Solution: requires that no room is both an entrance and an exit, as the puzzle promises. The source does not check this; for an overlapping room it returns `float('inf')`, which the integer model cannot return. The unbounded capacity `float('inf')` of the virtual edges is the integer TotalCapacity(path) + 1. The minimum cut found crosses no edge of that capacity, so raising the sentinel, up to infinity, raises no cut below the flow and leaves the maximum flow unchanged. This last step is argued here, not proved. The bottleneck starts from the first path edge instead of infinity, which gives the same minimum.
- RunningWithBunnies.FloydWarshall: the `next_node` table is left out, because nothing reads it. The deep copy is modelled as a value. Optimality of the distances (no walk is cheaper) is not proved. The contract gives walk-cost witnesses and the bound by the direct edge.
- RunningWithBunnies.Solution: that every negative-cost cycle makes the diagonal check fire is not proved, so "all bunnies saved" is stated for the check firing. Route times are measured on the computed matrix, whose entries are walk costs but are not proved to be the shortest. For this reason the official cases are not proved.
- PrepareTheBunniesEscape.Bfs: the search can re-enqueue states with equal wall counts without end. It carries a fuel bound, and the outcome `Unfinished` stands for running out of fuel. Shortest-path optimality of an escape is not stated.
- PrepareTheBunniesEscape.Solution: inherits the fuel bound and the missing optimality statement from `Bfs`. Without optimality the asserted example grids do not follow from the contract and are not proved.
- PrepareTheBunniesEscapeFirstAttempt.Bfs: the wall bound of the walk found and the None guarantee are stated only when the start cell is not a wall. With a walled start the source marks it NO_WALL although the wall has been passed, so its marks no longer describe the walks. Shortest-path optimality is not stated.
- PrepareTheBunniesEscapeFirstAttempt.Solution: inherits the open-start condition and the missing optimality statement from `Bfs`. Without optimality the asserted example grids do not follow from the contract and are not proved.
- BombBaby.Solution: decimal parsing of the inputs and the string result are left out. Counts are integers and the answer is `Generations(k)` or `Impossible`.
- DisorderlyEscape.ConjugacyClassSize: that n! is divisible by the denominator is not proved. The contract uses the same floor division as the source.
- DisorderlyEscape.Solution: that the total is divisible by w!·h! (Burnside's lemma) is not proved, and the result is a number rather than its decimal string. The case (2, 3, 4) giving 430 is not proved.
- GrandestStaircase.Solution: requires n >= 0. For a negative n the source fails with an IndexError at the first cache lookup (the-grandest-staircase-of-them-all/solution.py:26-30), which the model does not reproduce; the puzzle only gives 3 <= n <= 200.
- GrandestStaircase.SmallCounts: only 3, 4 and 5 bricks are checked. The asserted values for 6 to 9 and for 200 are not proved.
- ExpandingNebula.Solution: the grid's rows must all have the same length, which transpose needs. Python's `|=` on a clear bit is modelled as `+`. Dictionary and set iteration order does not affect the results and is not modelled. The asserted counts 11567, 4 and 254 are not proved.
- ExpandingNebulaBruteForce.Solution: the grid must be non-empty with equal-length rows, as the indexing of the first column demands. The asserted counts 11567, 4 and 254 (expanding-nebula/bruteforce-solution.py:191-198) are not proved.
- NumbersStation.Solution: the first-window and no-window guarantees are stated for non-negative codes only, as the puzzle promises. With negative codes only soundness is stated. The asserted cases other than the two official ones are not proved.
- CakeIsNotALie.Solution: the float test `n_occurrences == len(s) / i` is modelled as the exact integer test n_occurrences · i == len(s).

## Findings

| source | as written | input that shows it | evidently intended | confidence | as-written member | corrected member |
|---|---|---|---|---|---|---|
| bomb-baby/solution.py:88-89 | any two equal counts return 'impossible' | x = y = 1: the starting pair itself | (1, 1) needs 0 generations, which is what the reverse walk returns | not executed | BombBaby.SolutionAsWritten, BombBaby.StartPairNeedsNoGenerations | BombBaby.Solution |
