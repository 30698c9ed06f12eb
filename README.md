# Maze solver: genetic algorithm and A*

A Dafny model of a small maze solver. The maze is an n-by-n grid of tokens
("0" free, "1" wall, "E" start, "S" exit). The model proves properties of
each of these parts:

- **Genetic solver** (`genetic.py`). A chromosome is a list of move genes 1..8,
  each one of the eight neighbour steps. `_simulate` replays the genes against
  the grid and computes a fitness clamped to [0, 120] from capped terms.
  Around it sit the constructor, which clamps the elite sizes, and the
  population operators: evaluation, stable ranking, elitism, one-point
  crossover and mutation. `run` drives them through an attempt loop capped at
  10 attempts and a generation loop.
- **A\* search** (`astar.py`). A best-first search over the implicit
  8-neighbour graph, with a binary heap of `(f, cell)` entries, lazy deletion
  of stale entries and path reconstruction from `came_from`.
- **Maze handling** (`maze.py`). `is_inside`, `is_free` and `clone_grid`, and
  `Maze.from_file`, modelled on the text of the file.
- **Output helpers** (`main.py`, and `_format_path` of `genetic.py`).
  `maze_with_path` marks the path on a copy of the grid; the two path
  formatters each come with a decoder.

Modules:

- `Common`: Option, Result, Python's exceptions and slicing.
- `RandomSource`: the random source as an explicit input.
- `Moves`: the `MOVES` table, step costs and the heuristic.
- `Grid`: the maze and its predicates.
- `Fitness`: the replay and the score, as a specification.
- `Ranking`: the stable sort by fitness.
- `Genetic`: the operators, and the class `GeneticSolver` with its imperative methods.
- `AStarState`, `AStarTermination`, `AStarInvariants`, `AStarPath` and `AStar`:
  the search, its invariants, why it ends, and the reconstructed path.
- `MazeLoad`: `from_file`.
- `Overlay`: `maze_with_path`.
- `PathText`: the path formatters.

Each imperative part is a method with loops, proved equal to a specification
function or to an explicit contract. These are `_simulate`, `_mutate` in place
on an array, `_evaluate_population`, `_next_generation`, `run`, `astar` with
its relaxation loop and reconstruction loop, `from_file`, `clone_grid` and
`maze_with_path`. The properties are proved about the specification functions.

Modelling choices:

- **Randomness.** It is a value `Rng`: an infinite stream of raw draws and how
  many have been used. Each Python call (`random`, `randint`, `choice`,
  `sample`) maps its next draw into the range the call promises. A draw is
  the model's own unit of randomness, not what CPython's generator consumes:
  `random()` takes two 32-bit outputs, and `randint` and `choice` may reject
  an output and take another. So "uses one draw" counts calls, not generator
  outputs.
- **Fitness arithmetic.** Only exact decimal constants with +, −, ×, min and
  max are involved, so it is exact `real` arithmetic.
- **`math.sqrt(2.0)`.** It is the exact value of the nearest double,
  1.4142135623730951454746218587388284504413604736328125; Python prints it
  as 1.4142135623730951, its shortest round-trip form.
- **`math.hypot`.** It is a square-root parameter `sqrt`. `SqrtLaws` states the
  laws it needs: it is never negative and the root of 0 is 0.
- **Raised exceptions.** They are `Err` values of `Result`: `IndexError`,
  `ValueError` from `randint` and `sample`, and the `ValueError`s of `from_file`.

Two facts about the code that are easy to misread:

- The constructor validates nothing beyond the elite-size clamps.
- `trimmed_genes` is `chromosome_length` minus the number of successful
  moves, not the number of unused genes.

## Model

| member | source | states |
|---|---|---|
| Common.SliceProperties | genetic.py:237-238 | `s[:k] + s[k:] == s` for every bound; a non-negative `k` keeps `min(k, len(s))` items in front, and a negative `k` leaves at most `-k` items behind, counting from the end |
| RandomSource.Random | genetic.py:234 | `random.random()` lies in [0, 1) and uses one draw |
| RandomSource.RandInt | genetic.py:236 | `randint(a, b)` lies in [a, b]; it raises ValueError exactly when b < a |
| RandomSource.ChooseGene | genetic.py:92 | `random.choice(GENE_VALUES)` is one of the eight genes and uses one draw |
| RandomSource.SampleTwo | genetic.py:224 | `random.sample(pool, 2)` gives two distinct positions of the pool; it raises ValueError exactly when the pool has fewer than two items |
| Moves.MovesAreNeighbours | genetic.py:16-26 | the move table holds exactly the eight neighbour offsets: b is adjacent to a iff some gene leads from a to b, and no two genes lead to the same cell |
| Moves.StepCostBounds | astar.py:59-60 | orthogonal steps cost 1 and diagonal steps cost `Sqrt2`, and 1 < `Sqrt2` < 2 |
| Moves.HeuristicProperties | astar.py:22-25 | the Euclidean heuristic is symmetric, never negative, and zero from a cell to itself; it is positive between distinct cells when the root is zero only at zero |
| Grid.FreeMeansInsideAndNotWall | maze.py:65-70 | a free cell is inside the n-by-n box; inside it, a cell is free iff it is not "1", so "0", "E" and "S" are free; a cell outside is never free |
| Grid.CloneGrid | maze.py:72-73 | the clone has one fresh row per grid row, with the same contents, and no two rows alias |
| Fitness.TrimmedGenes | genetic.py:162 | `max(0, chromosome_length - path_len)` is never negative, and is either 0 or the difference |
| Fitness.Clamp | genetic.py:178-182 | the clamped score lies in [0, 120]; a score already inside is kept, and one outside goes to the nearer bound |
| Fitness.StepEffect | genetic.py:113-135 | a blocked gene keeps the position and the path, adds one collision and one to the streak, and adds the streak penalty; a free target is appended as previous cell plus delta, resets the streak, and sets the exit flag exactly at the exit |
| Fitness.StartIsConsistent | genetic.py:96-110 | the initial replay state (path `[start]`, one visit, nothing consumed) satisfies the replay invariant |
| Fitness.StepKeepsConsistent | genetic.py:112-139 | one replayed gene keeps the replay invariant and consumes exactly one gene |
| Fitness.RunKeepsConsistent | genetic.py:112-139 | the replay keeps the invariant (path of free adjacent cells from the start, visit counts matching the path); it consumes at most one gene per gene, and all of them unless the exit is reached |
| Fitness.EvaluateProperties | genetic.py:94-192 | `_simulate` returns the chromosome unchanged; the path starts at the start, has at most one cell per gene, and steps onto free neighbours; a reached exit is the last cell and appears nowhere earlier; fitness lies in [0, 120] |
| Fitness.RunSnoc | genetic.py:112-139 | replaying one more gene after a replay that has not reached the exit is one more step |
| Fitness.RunStopsAtExit | genetic.py:137-139 | genes after the one that reaches the exit are never executed |
| Fitness.NoExitFitnessBound | genetic.py:161-176 | without reaching the exit no success bonus or multiplier applies, and the fitness is at most 115 |
| Fitness.OverVisitsUpdate | genetic.py:123 | raising a visit count from c >= 1 to c + 1 adds one to the revisit sum; a first visit adds nothing |
| Fitness.RevisitsCountReentries | genetic.py:166 | the revisit sum `sum(count - 1 ...)` equals the steps of the path minus the new distinct cells it entered |
| Fitness.FreeWalkHasNoCollision | genetic.py:112-139 | genes whose moves all land on free cells replay without a collision; the path is the start followed by exactly those cells, and the exit is reached iff the last of them is the exit |
| Ranking.Insert | genetic.py:220 | insertion adds exactly one position to the ranking (a multiset equation) |
| Ranking.InsertRanked | genetic.py:220 | inserting a position before the first one it precedes keeps the order ranked |
| Ranking.RankFromIsPermutation | genetic.py:220 | the ranking holds each position exactly once and is ordered by descending fitness, ties in input order |
| Ranking.SortByFitnessProperties | genetic.py:220 | `sorted(..., reverse=True)` is a permutation of the input; fitness never rises along it; equal fitnesses keep their input order; its head is as fit as every individual |
| Genetic.EliteSizesBounds | genetic.py:79-87 | for a population of at least 1 and an `elite_size` that is None or not negative: 1 <= elite_size <= elite_pool_size <= population_size; a None or 0 argument takes the default (a fifth of the population, at least 1; the pool twice the elites, clipped) |
| Genetic.RandomGenes | genetic.py:92 | `_random_chromosome` has `chromosome_length` genes (none for a negative length) and uses one draw per gene |
| Genetic.RandomPopulation | genetic.py:302 | the initial population has `population_size` chromosomes, all of `chromosome_length` genes |
| Genetic.MutateGenesSnoc | genetic.py:242-244 | mutating one more gene continues from where the shorter list left the random source |
| Genetic.MutateGenesProperties | genetic.py:241-244 | mutation keeps the length; a rate of 0 or less changes nothing; each gene uses one or two draws |
| Genetic.Crossover | genetic.py:233-239 | crossover raises only from `randint` on a length below 2; a negative rate always copies the parents |
| Genetic.CrossoverProperties | genetic.py:233-239 | each child is one parent up to a common cut and the other after it; at every position the two children hold the two parents' genes; when the parents are `chromosome_length` long the children are the parents in order or a splice at a cut `1 <= point <= L - 1`; a rate of 1 or more with a length below 2 always raises |
| Genetic.BestWithExitFrom | genetic.py:319-322 | `max` over the exit-reaching individuals: none exactly when no individual reached the exit; otherwise the first of highest fitness among those that did |
| Genetic.GeneticSolver.constructor | genetic.py:60-87 | the fields hold the arguments, and the elite sizes are the clamped ones |
| Genetic.GeneticSolver.Mutate | genetic.py:241-244 | `_mutate` rewrites the array in place to what the mutation function gives, and hands on the random source |
| Genetic.GeneticSolver.BreedProperties | genetic.py:224-226 | breeding raises only when the pool has fewer than two parents or the cut range is empty, and always when the pool has fewer than two; the cut is drawn only when the roll does not exceed the rate, so with two or more parents a negative rate never raises and a rate of 1 or more with a length below 2 always does; children of n-gene parents have n genes |
| Genetic.GeneticSolver.RefillProperties | genetic.py:223-229 | the refill loop keeps the population so far as a prefix and stops exactly at `population_size`; it keeps chromosome lengths; it raises only when children are needed and the pool is too small or the cut range empty |
| Genetic.GeneticSolver.NextGenProperties | genetic.py:219-231 | on a full population the next one is full again; its first `elite_size` chromosomes are the fittest, best first; lengths are kept; with no room for children nothing random happens; it raises only when children are needed and the pool has fewer than two parents or the cut range is empty, and always when children are needed and the pool has fewer than two parents |
| Genetic.GeneticSolver.NextGenKeepsLength | genetic.py:219-231 | breeding from n-gene individuals gives n-gene chromosomes |
| Genetic.GeneticSolver.NextGeneration | genetic.py:219-231 | the imperative `_next_generation` (the elite copy and the `while` refill) computes `NextGen` |
| Genetic.GeneticSolver.Advance | genetic.py:113-139 | one iteration of the imperative replay loop is the specification step |
| Genetic.GeneticSolver.Walk | genetic.py:112-139 | the imperative replay loop, with its `break` at the exit, is the specification replay |
| Genetic.GeneticSolver.Simulate | genetic.py:94-192 | the imperative `_simulate` returns the specification individual, so `EvaluateProperties` holds of it |
| Genetic.GeneticSolver.EvaluatePopulation | genetic.py:194-209 | one individual per chromosome, in order; `best_idx` is the first position of maximal fitness (0 for an empty population); `exit_found` iff some individual reached the exit |
| Genetic.GeneticSolver.EvaluateAllChromosomes | genetic.py:200-202 | individual j carries chromosome j |
| Genetic.GeneticSolver.ElitismKeepsBest | genetic.py:220-221 | with the elites kept, the head of the next generation is as fit as every individual of this one |
| Genetic.GeneticSolver.GenerationsProperties | genetic.py:305-330 | a solved attempt returns a simulated, exit-reaching chromosome of the attempt's length; with no generations left the attempt is unsolved; an empty population raises IndexError at `infos[best_idx]` |
| Genetic.GeneticSolver.AttemptsProperties | genetic.py:292-302 | a found result is the genes and path of an exit-reaching simulated chromosome; otherwise `([], [], False)`; with no generations every attempt fails, and an empty population raises |
| Genetic.GeneticSolver.Run | genetic.py:284-334 | the imperative `run`, with its two nested loops, computes the attempt function from attempt 0 |
| Genetic.GeneticSolver.RunFindsSolution | genetic.py:317-327 | a path `run` reports as found starts at the start, ends at the exit, touches the exit only there, and steps onto free neighbours, with at most one cell per gene |
| AStarState.EntryLeIsTotalOrder | astar.py:33-39 | the heap order on `(f, cell)` entries is a total order, so a least entry always exists |
| AStarState.StepFacts | astar.py:59-61 | a move reaches a neighbour, and its cost, between 1 and `Sqrt2`, adds one orthogonal or one diagonal step |
| AStarState.CostsAreNonNegative | astar.py:36 | every recorded cost is at least 0 |
| AStarTermination.ReachedAreCells | astar.py:56-66 | reached cells are inside cells or the start, so finitely many |
| AStarTermination.PendingShrinks | astar.py:64-66 | lowering costs and reaching more cells never adds a pending improvement |
| AStarTermination.ImproveShrinksPending | astar.py:64-66 | an improving relaxation removes at least one pending improvement |
| AStarTermination.RelaxStepShrinks | astar.py:54-68 | a relaxation either changes nothing or strictly shrinks the pending improvements |
| AStarTermination.FewerPending | astar.py:38 | fewer pending improvements is a smaller number of them, the loop's measure |
| AStarInvariants.InitialInv | astar.py:32-36 | the initial heap `[(0.0, start)]`, `g_score = {start: 0}` and empty `came_from` satisfy the loop invariants |
| AStarInvariants.ImproveKeepsTree | astar.py:63-66 | recording a cheaper cost through a free neighbour keeps the links a tree: `start` costs 0 and has no predecessor; every link goes to a free neighbour and costs at least 1 less |
| AStarInvariants.ImproveKeepsCosts | astar.py:60-66 | a new cost is a bounded count of orthogonal and diagonal steps |
| AStarInvariants.RelaxStepKeepsTree | astar.py:54-66 | one relaxation keeps the predecessor tree |
| AStarInvariants.RelaxStepKeepsCosts | astar.py:59-66 | one relaxation keeps every cost a bounded count of steps |
| AStarInvariants.RelaxStepProgress | astar.py:54-68 | a relaxation keeps heap cells reached and never raises a cost; it pushes a fresh entry for a lowered cost, and reaches the neighbour when it is free |
| AStarInvariants.ProgressTransitive | astar.py:54-68 | the growth relation of the expansion loop composes |
| AStarInvariants.RelaxStepKeepsExpandInv | astar.py:54-68 | relaxing the next move keeps the invariant of the loop over `MOVES.values()` |
| AStarInvariants.DropStaleKeepsInv | astar.py:49-51 | dropping a stale entry keeps the invariants, since a cell still to expand has another entry that is not stale |
| AStarInvariants.ExpandKeepsClosed | astar.py:53-68 | after expanding a non-goal cell, all its free neighbours are reached and it joins the expanded cells |
| AStarInvariants.ExpandKeepsInv | astar.py:53-68 | an expansion keeps all the loop invariants |
| AStarInvariants.WalkStaysReached | astar.py:38 | when the heap is empty, every cell of a walk from `start` has been expanded |
| AStarInvariants.NoWalk | astar.py:70 | when the heap runs empty, no walk leads from `start` to the goal, so `None` is right |
| AStarPath.Reversed | astar.py:46 | `path.reverse()` has the same length, and element i is element len-1-i of the input |
| AStarPath.BackLinksGrow | astar.py:43-45 | following one more link keeps a chain of strictly falling costs, and the floor of the cost falls (the loop's measure) |
| AStarPath.ReversedSteps | astar.py:42-47 | the reversed chain steps onto free neighbours |
| AStarPath.ReversedDistinct | astar.py:42-47 | the reversed chain repeats no cell |
| AStarPath.BackLinksWalk | astar.py:42-47 | a chain from the goal to a cell without predecessor ends at `start`; reversed, it is a walk from `start` to the goal without repeats |
| AStar.HeapPop | astar.py:39 | `heappop` removes exactly one entry, a least one in the entry order |
| AStar.Relax | astar.py:55-68 | one neighbour's relaxation (the skip of walls and outside cells, the cheaper-cost test, the link, the cost and the push) computes the relaxation function |
| AStar.Expand | astar.py:54-68 | the loop over the eight moves keeps the invariants and reaches every free neighbour; it either changes nothing or removes a pending improvement |
| AStar.Reconstruct | astar.py:42-47 | the reconstruction loop ends and returns a walk from `start` to the goal without repeats; a goal without predecessor gives `[goal]` |
| AStar.Astar | astar.py:27-70 | a returned path is a walk from `start` to `goal` over free neighbours without repeats; `None` only when no such walk exists; `start == goal` gives `[start]` |
| MazeLoad.ReadLine | maze.py:24 | `readline` advances; it returns "" exactly at the end of the file |
| MazeLoad.ReadLineProperties | maze.py:37 | the line read runs to the first newline, which it includes, or to the end |
| MazeLoad.StripLeftProperties | maze.py:27 | `lstrip` drops exactly the leading whitespace |
| MazeLoad.StripRightProperties | maze.py:27 | `rstrip` drops exactly the trailing whitespace |
| MazeLoad.StripProperties | maze.py:40 | `strip` keeps a slice of the text, drops only whitespace, and leaves none at either end |
| MazeLoad.SplitWhitespace | maze.py:45 | `split()` of a text starting with a non-space gives at least one token |
| MazeLoad.SplitWhitespaceProperties | maze.py:45 | the tokens are non-empty and hold no whitespace; together they are the text's non-whitespace characters in order; a text without whitespace is one token |
| MazeLoad.SplitAtSpace | maze.py:45 | `split()` breaks at every whitespace character: `(a + w + b).split() == a.split() + b.split()`, and the empty text has no token; with the one-token fact this fixes the tokens as the maximal non-whitespace runs |
| MazeLoad.CharsProperties | maze.py:47 | `list(token)` gives one-character strings that run together give the token back |
| MazeLoad.WordLine | maze.py:45-47 | a line of one word of n characters gives the row of its characters |
| MazeLoad.ReadLinesEnd | maze.py:24-31 | the header ends inside the text |
| MazeLoad.LastInRow | maze.py:52-56 | the position recorded for a token in a row is its last occurrence, and there is none iff the row lacks it |
| MazeLoad.Locate | maze.py:52-56 | a recorded position holds the token in some row read; there is none iff no row holds the token |
| MazeLoad.LocateLastInRow | maze.py:52-56 | with rows at their own indices, the recorded position is the last occurrence in its row |
| MazeLoad.AppendRow | maze.py:52-57 | appending a row appends it to the grid; its last "E" and "S" replace the ones recorded earlier |
| MazeLoad.LoopStateInitial | maze.py:32-36 | the row-loop state holds before the first row |
| MazeLoad.LoopStateBlank | maze.py:41-44 | a blank line uses up one iteration and records nothing |
| MazeLoad.LoopStateRow | maze.py:45-57 | a row of n tokens is appended, with its "E" and "S" at counter i |
| MazeLoad.RowStep | maze.py:45-57 | one row read by the loop as written |
| MazeLoad.LoopStateError | maze.py:37-51 | an end-of-file or width error in the loop is the loader's error |
| MazeLoad.LoopStateDone | maze.py:36-63 | after n iterations, the loader's result is built from the rows read |
| MazeLoad.ScanRow | maze.py:52-56 | the `enumerate` loop records the last "E" and the last "S" of the row, at row index i |
| MazeLoad.FromFile | maze.py:14-63 | the imperative `from_file` (the header, the row loop with its blank-line `continue`, the E/S scan, the missing-exit error and the default start) computes the as-written loader |
| MazeLoad.RowsAsWrittenShape | maze.py:36-57 | rows read as written have n tokens and counters below n, but there may be fewer than n of them |
| MazeLoad.LoadAsWrittenWellFormed | maze.py:36-57 | the maze the loader as written returns is well formed: every row is at least as long as the grid is tall |
| MazeLoad.RowsFixedShape | maze.py:36-57 | rows read with blank lines skipped number exactly n; row k is tagged k and has n tokens |
| MazeLoad.LoadFixedProperties | maze.py:36-63 | with blank lines skipped, a loaded maze has n rows of n tokens; its exit is inside, holds "S" and is the last "S" of its row; its start holds "E" or is (0, 0); MissingExit iff no row holds "S" |
| MazeLoad.BlankLineCounterexample | maze.py:36-44 | on `"2\n\nES\n00\n"` the loader as written returns a one-row maze whose exit (1, 1) lies outside the grid; with blank lines skipped it reads both rows |
| Overlay.PyIndex | main.py:32 | a Python list index is valid iff it lies in [-len, len); it then reads the position i or i + len |
| Overlay.Resolve | main.py:32 | `grid[r][c]` reads a position inside the grid, or raises |
| Overlay.StepOnExit | main.py:29-30 | skipping the exit changes no token |
| Overlay.StepOnCell | main.py:32-33 | a step marks its cell "*" if it held "0" and changes no other token |
| Overlay.MazeWithPath | main.py:17-35 | no IndexError iff every cell of `path[1:]` other than the exit is indexable; on success, fresh unaliased rows of the original lengths in which exactly the "0" cells read by such a cell are "*"; an empty path gives an unchanged copy |
| Overlay.ResolveInside | main.py:32 | an inside cell reads itself; a row index beyond the grid raises |
| Overlay.FreePathOverlay | main.py:27-33 | for a path of free cells nothing raises, and a "0" cell becomes "*" iff it occurs in `path[1:]` and is not the exit; a first cell that does not recur keeps its token |
| PathText.NatToStringRoundTrip | genetic.py:264 | the decimal digits of `str(n)` denote n, and only 0 has a leading "0" |
| PathText.IntToStringRoundTrip | genetic.py:264 | `str(i)` reads back as i, and holds no comma, space or parenthesis |
| PathText.SplitJoin | main.py:14 | splitting at a separator that no part contains undoes `sep.join` |
| PathText.CellTokenRoundTrip | genetic.py:264 | the token `(r,c)` reads back as its cell |
| PathText.CellTokenHasNoSpace | main.py:14 | a cell token holds no space, so the spaces of `format_path_with_spaces` separate whole tokens |
| PathText.OpenTokenHasNoParen | genetic.py:264 | a token holds its only `)` at its end, so the run-together text can be cut after every `)` |
| PathText.ParseCellsTokens | main.py:14 | the tokens of a path read back as the path |
| PathText.FormatPathWithSpacesRoundTrip | main.py:12-14 | `format_path_with_spaces` reads back as the path, and gives "" exactly for the empty path |
| PathText.RunTogetherAsJoin | genetic.py:264 | the run-together text is the opening parts of the tokens joined with ")" and closed by a ")" |
| PathText.FormatPathRoundTrip | genetic.py:261-264 | `_format_path` reads back as the path when cut after every ")", and gives "" exactly for the empty path |

## Left out

- The pseudo-random generator itself. Draws are an input stream, so no distribution or independence is modelled.
- Printing: `_print_generation`, the prints of `run` and `main`, and the `detailed` and `print_interval` parameters, which only steer printing.
- The file I/O of `from_file` and `write_output_file`. `from_file` is modelled on the file's text; `write_output_file` only prints `maze_with_path` and `format_path_with_spaces`, which are modelled.
- `main()` and its argument handling.
- IEEE floating point. Fitness and A* costs are exact reals, and `math.hypot` is the parameter `sqrt`.
- AStar.Astar: does not state that the returned path is a cheapest one. Only the structural guarantees are proved: a walk of free neighbours without repeats, `None` only without a walk, `[start]` for `start == goal`.
- AStar.HeapPop: does not model the heap's array layout, only which entry comes out. Ties between equal entries cannot differ, since the order is total.
- Genetic.EliteSizesBounds: does not cover a negative `elite_size`. Python keeps it, since a negative number is truthy and not above `population_size`, so `1 <= elite_size` then fails; `EliteSizes` still models that case exactly.
- The tournament selection, which is commented out in the source, and the unused `tournament_size`.
- `best_overall` in `run`. It is read only to update itself and is never used for the result.
- MazeLoad.ReadLine: does not model universal-newline translation, so a lone carriage return does not end a line.
- MazeLoad.IntLiteral: does not accept the underscores and the Unicode decimal digits (anywhere in the literal) that Python's `int()` also accepts.
- Overlay.FreePathOverlay: the first cell is stated unchanged only when it does not recur later in the path. A path that revisits its own first cell does get that cell marked, if it holds "0".

## Findings

| source | as written | input that shows it | evidently intended | confidence | as-written member | corrected member |
|---|---|---|---|---|---|---|
| maze.py:36-44 | a blank line among the rows runs `i -= 1; continue`, but `for i in range(n)` overwrites `i`, so the blank line uses up one of the n iterations | the file `"2\n\nES\n00\n"` loads as a one-row grid `[["E","S"]]` with start (1, 0) and exit (1, 1), both outside it | blank lines are skipped without using up a row, giving the 2-by-2 grid with start (0, 0) and exit (0, 1) | not executed | MazeLoad.BlankLineCounterexample | MazeLoad.LoadFixedProperties |
