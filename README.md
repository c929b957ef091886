# Greedy insertion vehicle routing, modelled in Dafny

The system assigns transport loads to drivers. Each load has a pickup point and a dropoff point. Every driver leaves a single depot, serves their loads one after the other (pickup, then dropoff), and returns to the depot. Every load must be served exactly once. No route may exceed a maximum travel time. The cost is a fixed amount per driver plus the total distance driven.

The solver is a greedy insertion heuristic. In each pass it considers every unassigned load at every position of every existing route, and also alone on a new route. It commits the feasible candidate with the smallest increase, taking the first one met when increases tie. Around the solver sit:

- a distance cache;
- a reader for problem files;
- a reader for solution texts;
- a checker for solutions.

This project models those parts as the Python source writes them (`src/main.py`, `src/helper.py`) and proves properties of the model.

Modules (one file each):

- `Common` (`common.dfy`): `Option` and sequence flattening, with multiset lemmas.
- `Geometry` (`geometry.dfy`): points, loads, and the distance type. A distance is any function `Metric = (Point, Point) -> real`. Symmetry and non-negativity are hypotheses where a lemma needs them. No square root is modelled.
- `Routes` (`route.dfy`): `calculate_route_time` and the `Route` class. The class keeps a mutable list of loads and a cached time, and insertions adjust the cache by a delta.
- `DistanceMatrices` (`distance_matrix.dfy`): the distance cache and `euclidean_distance`. The cache is passed in explicitly instead of living in a module global.
- `Greedy` (`greedy.dfy`): `GreedyInsertion.solve` as nested scanning methods over `Route` objects, and `calculate_total_cost`.
- `Text` (`text.dfy`): the pieces of Python's string library the parsers rely on, written out: `readline`, `replace(c, "")`, `split(c)` and `split()`.
- `Problems` (`problem.dfy`): `getPointFromPointStr`, `loadProblemFromProblemStr` and `VRP2`.
- `Solutions` (`solution.dfy`): `loadSolutionFromString` and `loadCountOrAssignmentError`.

The functions `Route.time` and `Route.len` are modelled as `Routes.Route.Time` and `Routes.Route.Len`. They only read a field, so they carry no contract.

## Model

| member | source | states |
|---|---|---|
| Routes.CalculateRouteTime | src/main.py:14-23 | The loop's total is the sum of the legs along depot, the pickup and dropoff of every load in order, and depot (`RouteTime`). |
| Routes.EmptyRouteTime | src/main.py:14-23 | A route with no loads costs exactly the depot-to-depot leg. |
| Routes.RoundTripTime | src/main.py:14-23 | A one-load route costs depot→pickup + pickup→dropoff + dropoff→depot. |
| Routes.SpliceChange | src/main.py:14-23 | Splicing a load in before any position 0..len changes the recomputed time by the detour left→pickup→dropoff→right minus left→right. Left is the depot at the front; right is the depot at the end. |
| Routes.Route.constructor | src/main.py:26-28 | A new route holds the given loads, and its cached time equals the recomputed time. |
| Routes.Route.CalculateNewLoadDelta | src/main.py:51-62 | For two or more loads and positions 1..len-1, the delta equals the change of the recomputed time. At position 0 it differs by using the last load, not the depot, as left neighbour. For a one-load route it is short by exactly the depot→pickup leg. |
| Routes.Route.GetTimeWithNewLoad | src/main.py:44-46 | Reads only. On a fresh route of two or more loads at positions 1..len-1, the result is the recomputed time of the route with the load spliced in. |
| Routes.Route.InsertLoad | src/main.py:39-42 | The list becomes `route[..i] + [load] + route[i..]`. The cached time grows by exactly the delta computed before the insertion. A fresh cache stays fresh when the delta is exact. |
| Routes.Route.UpdateTime | src/main.py:48-49 | The loads stay the same and the cached time becomes the recomputed time. |
| DistanceMatrices.EuclideanDistance | src/main.py:9-12 | With a consistent cache, the result is the distance in one order or the other. On a miss, or with no cache, it is the direct distance. |
| DistanceMatrices.CachedDistanceIsDistance | src/main.py:9-12 | With a consistent cache and a symmetric distance, the cached lookup equals the direct distance for every pair. |
| DistanceMatrices.CreateDistanceMatrix | src/helper.py:20-36 | The keys are exactly each load's pickup→dropoff pair and every pair in ({depot} ∪ pickups) × ({depot} ∪ dropoffs). Every value is the distance between its key's endpoints. |
| DistanceMatrices.CheckKey | src/helper.py:9-11 | `check_key(i, j)` holds exactly when some stored key has the endpoints {i, j}, in either order. |
| DistanceMatrices.CheckKeySymmetric | src/helper.py:9-11 | `check_key(i, j)` and `check_key(j, i)` agree. |
| DistanceMatrices.Get | src/helper.py:14-18 | `get(i, j)` returns a value stored under a key with the endpoints {i, j}, and the one under (i, j) when that order is stored. |
| DistanceMatrices.GetIsDistance | src/helper.py:14-18 | When either key order is stored, `get` in either order returns the distance, for a consistent cache and a symmetric distance. |
| DistanceMatrices.PickupDropoffPairsHit | src/helper.py:29-35 | Every pair drawn from (depot or pickup) × (depot or dropoff) is found in both orders. |
| DistanceMatrices.RouteLegsHit | src/helper.py:20-36 | Every leg of a route built from the problem's loads is in the cache, so the router never falls back to the direct distance. |
| Greedy.CalculateTotalCost | src/main.py:130-134 | Cost minus driven time is 500 per route. With a non-negative distance, driven time is at least 0. When every route's cache is fresh, driven time equals the sum of the cached times. |
| Greedy.DrivenTime | src/main.py:132 | The sum of the recomputed route times is non-negative for a non-negative distance. It equals the sum of the cached times when all caches are fresh. |
| Greedy.Indices | src/main.py:83 | The unassigned set starts as exactly the indices 0..n-1. |
| Greedy.GreedyInsertion.constructor | src/main.py:75-79 | The solver keeps the loads, depot and cap, and its leg distance is `euclidean_distance` over the given cache. |
| Greedy.GreedyInsertion.FindBest | src/main.py:86-115 | The result is a feasible candidate of least increase. No feasible candidate met earlier in the enumeration ties it, so the first minimum wins. The order is load index, then route, then position, with the new route last. The result is None exactly when no candidate is feasible. |
| Greedy.GreedyInsertion.ScanLoad | src/main.py:93-115 | After one load's routes and its new-route candidate, the best so far is the first feasible minimum of everything scanned up to that load. |
| Greedy.GreedyInsertion.ScanRoute | src/main.py:95-105 | After positions 0..len-1 of one route, the best so far is the first feasible minimum of everything scanned up to that route. |
| Greedy.GreedyInsertion.StepInvariant | src/main.py:100-115 | A candidate replaces the best only when it is feasible and strictly cheaper. Either way, the first-minimum invariant moves one place forward. |
| Greedy.GreedyInsertion.StepExisting | src/main.py:97-105 | The step for an existing-route candidate, as the scan computes it: feasible when the new time ≤ cap; its increase is the new time minus the cached time. |
| Greedy.GreedyInsertion.StepNew | src/main.py:107-115 | The step for the new-route candidate: feasible when its round trip ≤ cap, and chosen only if strictly less than the best increase. |
| Greedy.GreedyInsertion.Solve | src/main.py:81-127 | On success every load appears exactly once across the routes, as a multiset. Every route is non-empty and has a cached time within the cap or equal to its true time. If every load's round trip fits the cap, the solver succeeds. |
| Greedy.GreedyInsertion.Pass | src/main.py:85-126 | A pass fails exactly when no candidate is feasible; then some unassigned load's round trip exceeds the cap, the list of routes is the same and no route object changes. Otherwise the committed candidate is an unassigned load's first feasible minimum of the scan (`FirstMin`), and the pass has exactly the commit effect for it (`CommitEffect`): on a passing recheck the load is spliced into its route at its position and that route's cached time becomes the recomputed time plus the delta; on a failed recheck that route's loads stay and its cached time becomes fresh, and a fresh one-load route is appended. Every other route keeps its loads and its cached time. |
| Greedy.GreedyInsertion.Commit | src/main.py:117-124 | When the candidate is an insertion whose recomputed route time plus delta fits the cap, the load is spliced into that route before that position, that route's cached time becomes exactly that sum, and the list of routes stays the same. Otherwise the loads of every route stay the same, a rechecked route's cached time becomes its true time, and one new route holding only the load, with a fresh cached time, is appended at the end. Every other route keeps its loads and its cached time, and the loads across all routes grow by exactly the committed load. |
| Greedy.GreedyInsertion.InsertInto | src/main.py:118-122 | The load goes in exactly when route j's recomputed time plus the delta fits the cap. It is then spliced into route j before position i and route j's cached time is that sum; otherwise route j's loads stay and its cached time becomes the true time. Every other route keeps its loads and its cached time. |
| Greedy.GreedyInsertion.TryInsert | src/main.py:118-122 | The load is inserted exactly when the recomputed time plus the delta fits the cap. Then the list is the splice at position i and the cached time is that sum. Otherwise the loads are unchanged and the cache is fresh. |
| Greedy.GreedyInsertion.AppendRoute | src/main.py:124 | The existing routes are kept in place and one new route, holding only the load and with a fresh cached time, follows them at the end. |
| Greedy.GreedyInsertion.CommitInsertion | src/main.py:118-124 | The commit of an insertion candidate: the same effect as `Commit` states, for a candidate that names an existing route. |
| Greedy.GreedyInsertion.Step | src/main.py:85-126 | One iteration of the solver's loop. It fails exactly when its pass finds no feasible candidate; then some unassigned load's round trip exceeds the cap and no route changes. Otherwise it commits an unassigned load's first feasible minimum of the scan (`FirstMin`) with exactly the commit effect (`CommitEffect`), exactly that load's index leaves the unassigned set, and the loads in the routes plus the pending loads stay the same multiset. |
| Text.LineEnd | src/helper.py:145 | A read line ends just after the first '\n' or at the end of the text, and is empty only at the end. |
| Text.ReadLine | src/helper.py:145 | `readline()` returns a prefix of the remaining text, empty exactly at the end. No '\n' occurs before its last character, and it ends with '\n' unless it reaches the end of the text. |
| Text.LinesCover | src/helper.py:142-145 | The lines read one after the other, joined again, give back the text from the start position. |
| Text.LinesOfText | src/helper.py:142-145 | A text made of '\n'-free lines, each ended by '\n', is read as exactly those lines, each with its '\n'. |
| Text.Remove | src/helper.py:136 | `replace(c, "")` keeps every character except c and adds none. |
| Text.Split | src/helper.py:137 | `split(c)` returns at least one piece. |
| Text.SplitCount | src/helper.py:137 | `split(c)` returns one piece more than there are occurrences of c. |
| Text.JoinSplit | src/helper.py:137 | `split(c)` loses nothing: its pieces joined with c give the text back. |
| Text.SplitJoin | src/helper.py:137 | Pieces free of c, joined with c, split back into the same pieces. |
| Text.SplitAvoids | src/helper.py:137 | No piece produced by `split(c)` contains c. |
| Text.Fields | src/helper.py:152 | `split()` yields only non-empty words without whitespace. |
| Text.FieldsJoin | src/helper.py:152 | Words joined by single spaces split back into the same words. |
| Problems.GetPointFromPointStr | src/helper.py:135-138 | A point is parsed exactly when, after the parentheses are removed, there are at least two comma-separated pieces and the first two both convert. Its coordinates are then those two conversions. |
| Problems.PointRoundTrip | src/helper.py:135-138 | A point printed as `(x,y)` reads back as the same point, for numbers that print and parse back. |
| Problems.ParseLoadLine | src/helper.py:151-156 | A line yields a load exactly when it has at least three fields, the first converts to an id and the next two parse as points. The load is then that id, pickup and dropoff. |
| Problems.LoadLineRoundTrip | src/helper.py:151-156 | A load printed as `id (x,y) (x,y)` and ended by '\n' reads back as the same load. |
| Problems.ParseLoadsSpec | src/helper.py:144-157 | Reading succeeds exactly when every line parses. It then yields one load per line, in line order. |
| Problems.ProblemRoundTrip | src/helper.py:140-158 | A header line followed by the printed loads reads back as exactly those loads, in order. |
| Problems.LoadProblemFromProblemStr | src/helper.py:140-158 | The loop skips the header line and fails exactly when some later line does not parse. Otherwise it returns the loads of all later lines, in order, with the id map of the VRP2 constructor. |
| Problems.NewVRP2 | src/helper.py:101-108 | The problem keeps its loads, and `h` is the map filled load by load, a later load overwriting an earlier one with the same id. |
| Problems.IdMapKeys | src/helper.py:107-108 | The keys of `h` are exactly the ids of the loads. |
| Problems.IdMapLast | src/helper.py:107-108 | `h` sends an id to the last load that carries it. |
| Problems.Pickup | src/helper.py:110-111 | `pickup(id)` succeeds exactly when `h` holds the id. |
| Problems.PickupDistinct | src/helper.py:110-111 | With distinct ids, `pickup` returns every load by its own id. |
| Solutions.LoadSolutionFromString | src/helper.py:160-178 | The readline loop returns the outcome of reading the text line by line (`ParseSolution`), early return included. |
| Solutions.ScheduleOfLine | src/helper.py:169-177 | The ids of an accepted line: brackets, '\n' and spaces removed, then split on ','. |
| Solutions.ParseSolutionOk | src/helper.py:163-178 | The error is empty exactly when every line has both brackets. Then there is one schedule per line. |
| Solutions.ParseSolutionPrefix | src/helper.py:163-178 | The schedules read are those of the leading bracketed lines, in order, and there are no more of them than lines. |
| Solutions.ParseSolutionError | src/helper.py:167-168 | On an error, the line after the schedules read is the first one missing a bracket, and the error is the format message followed by that raw line. |
| Solutions.ScheduleRoundTrip | src/helper.py:166-177 | A schedule printed as `[a, b, c]` and ended by '\n' is accepted and reads back as the same ids, for ids free of brackets, commas and whitespace. |
| Solutions.SolutionRoundTrip | src/helper.py:160-178 | Schedules printed one per line read back as the same schedules, with no error. |
| Solutions.LoadCountOrAssignmentError | src/helper.py:180-195 | The nested loops with early returns compute `AssignmentError`: the first repeated id, else the count error, else the first missing load, else "". |
| Solutions.ScanIdsSpec | src/helper.py:182-186 | The scan finds no repeat exactly when no id repeats and none was seen before. It then collects exactly the seen ids and the scanned ones. |
| Solutions.ScanSchedulesFlat | src/helper.py:182-186 | Scanning the schedules one after the other is scanning their concatenation. |
| Solutions.FirstMissingSpec | src/helper.py:191-193 | No load is reported missing exactly when every problem id was seen. A reported id was indeed not seen, and it is the id of a load all of whose predecessors in problem order were seen. |
| Solutions.FirstMissingAt | src/helper.py:191-193 | The first load, in problem order, whose id was not seen is the one reported. |
| Solutions.ScanIdsRepeated | src/helper.py:182-186 | A reported repeat is met at a position where the id was already seen or occurred earlier, with no repeat before that position. |
| Solutions.ScanIdsFirstRepeat | src/helper.py:182-186 | The first position where an id comes back is the repeat the scan reports. |
| Solutions.DuplicateReported | src/helper.py:180-186 | The checker's message names the first id met a second time across the schedules, scanned in order. |
| Solutions.MissingReported | src/helper.py:180-193 | Without repeats and with the right count, the checker's message names the first load, in problem order, whose id no schedule holds. |
| Solutions.AcceptedExactly | src/helper.py:180-195 | The checker returns "" exactly when no id repeats across the schedules, the number of ids equals the number of loads, and every problem id occurs. |
| Solutions.AcceptedIffExactlyOnce | src/helper.py:180-195 | With distinct problem ids, the checker returns "" exactly when the schedules' ids are, as a multiset, the problem's ids, so every load is assigned exactly once. |

## Where the code departs from its evident intent

An insertion delta is evidently meant to equal the change of the recomputed route time, which `Routes.SpliceChange` gives for every position 0..len: the detour left→pickup→dropoff→right minus the bypassed leg left→right, with the depot as left neighbour at the front and as right neighbour at the end. The model follows the code instead, and `Routes.Route.CalculateNewLoadDelta` states the code's behaviour for all three cases:

- At position 0 the code's left neighbour is `route[i - 1]`, which in Python is the last load, not the depot.
- For a one-load route the depot→pickup leg of the new load is never added.
- The solver offers positions 0..len-1 only, so it never appends a load at the end of an existing route.

Because of the first two, a cached route time can drift from the true time. The solver recomputes before committing an insertion, but:

- The candidate scan compares cached times.
- A rejected recheck falls back to a new one-load route without checking that route against the cap.

So the only invariant that holds for every route is: cached time within the cap, or cached time equal to the true time. `Greedy.GreedyInsertion.Solve` states that invariant.

A load that cannot be served within the cap is evidently meant to be reported. The code has no such report. When a pass finds no feasible candidate, it builds a route from `None` and fails. The model returns `None` there. `Solve` proves that this cannot happen when every load's own round trip fits the cap.

## Left out

- File and console I/O: `loadProblemFromFile`, `main`, argument parsing and printing.
- `math.sqrt` and all floating point. The distance is any function `Metric`, and the cache stores that function's values. Exact real arithmetic replaces float rounding, so sums and the `<=` cap test are exact in the model.
- `float(...)` in `getPointFromPointStr` and `int(id)` in `Load.__init__`. They are the parameters `toReal` and `toId`, which yield None where Python raises; `toId` returns the id's normal form, so two spellings of one integer name the same load. Every exception while parsing a problem (too few fields, too few commas, a bad number, a bad id) is a None result.
- `float('inf')` as the initial best increase. The best so far is an `Option` instead.
- String formatting: `__repr__`, `__str__`, `Point.toString` and `toProblemString`. They only have texts to print; the round-trip lemmas use their own printed forms instead.
- The legacy `VRP` class and `VRP2.idFromLoad`. `h2` is never filled, so `idFromLoad` always raises.
- `Point.__lt__`, `Route.get_route` and `Route.get_item`. `get_route` is a field read, used in `Greedy.DrivenTime`.
- Load ids are one type (`LoadId`, a string) throughout: a problem's ids are what `toId` returns, and a solution's ids are their raw text. In the source the problem ids are integers, but solution ids stay strings. Read literally, the membership test of `loadCountOrAssignmentError` then never succeeds and its message concatenation raises. The model compares ids of one type and does not reproduce the type error.
- Python's set iteration order over `unassigned_loads`. The model scans indices in ascending order, which is what CPython does for small non-negative integers.
- The default cap of 720 and the depot at (0, 0) that the script sets. The cap and the depot are parameters.
- The module-level cache singleton and the global `depot`. Both are parameters: `GreedyInsertion` takes the cache and distance, and every `Route` holds its depot and leg distance.
- `GreedyInsertion.depot` (src/main.py:78) is stored but never read by the source, whose routes use the global depot of src/main.py:137. The model gives the solver's depot to every route it builds, which is the same point when the solver is built as src/main.py:144 builds it.
- The `h` parameters of `Route.__init__`, `Route.update_time`, `GreedyInsertion.__init__` and `calculate_total_cost` (src/main.py:26, 48, 75, 130) are never used, and are dropped.
- Greedy.GreedyInsertion.Solve: does not state which load makes a failing run fail. `Pass` states it per pass: some unassigned load's round trip exceeds the cap.
