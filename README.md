# Tenner-grid CSP propagators and snowman heuristics in Dafny

This project models three pieces of a small game-AI repository and proves properties of them.

**Constraint propagation** (`NumberGame/propagators.py`, module `Propagators`). The backtracking
search calls a propagator before it assigns anything and again after each assignment. A
propagator returns whether the search may continue, plus the list of (variable, value) pairs
it pruned, so that the search can restore them when it backtracks. The model covers:

- plain backtracking (`prop_BT`);
- forward checking (`prop_FC`);
- generalised arc consistency (`prop_GAC`), with its FIFO worklist;
- the minimum-remaining-values ordering (`ord_mrv`).

The parts of the constraint library these functions use are modelled in module `CspBase`:

- the CSP object, with its current domains and assignment;
- table constraints;
- the support test `has_support`;
- `prune_value`;
- the driver's undo of a pruning list.

`cspbase.py` itself is not part of this model. Its behaviour is given here as specifications.

**Tenner-grid models** (`NumberGame/tenner_csp.py`, module `Tenner`). The model covers:

- `set_up`: one variable per cell, with domain 0..9 for a blank (-1) and the single given value otherwise;
- the column-sum table constraints;
- not-equal constraints between adjacent cells;
- the row constraints, either 45 binary not-equals per row (model 1) or one all-different permutation table per row (model 2);
- the two model builders, which append these constraint lists in the source's order and register the variables row by row.

The builders return a `Problem`. Its domains are the registered variables, and its constraints are the list in order. Lemmas prove what each table contains, how long the adjacency and row tables are, and that every scope names distinct variables of the problem. A further group of lemmas shows that, where model 2 is built, a full assignment solves model 1 exactly when it solves model 2.

**Snowman heuristics** (`BuildSnowman/solution.py`, module `Snowman`). The model covers:

- the weighted Manhattan-distance heuristic;
- the trivial and zero heuristics;
- the edge and obstacle-corner deadlock tests;
- `robot_to_target`;
- `heur_alternate`.

`heur_alternate` returns infinity when a snowball is dead. Otherwise it returns the weighted distance plus the robot's distance to its next target.

Loops in the source are methods with `while`/`for` loops. Each method is proved against a specification function, or states its result directly. The CSP is a class whose current domains are updated in place.

## Model

| member | source | states |
|---|---|---|
| CspBase.ConsWith | NumberGame/propagators.py:82 | `get_cons_with_var`: the indices of exactly the constraints whose scope mentions the variable, in increasing order |
| CspBase.AllIndices | NumberGame/propagators.py:100-101 | `get_all_cons`: every constraint index once, in order |
| CspBase.UnassignedIn | NumberGame/propagators.py:83 | `get_unasgn_vars`: exactly the scope positions whose variable is unassigned, each in range |
| CspBase.UnassignedInOrder | NumberGame/propagators.py:83 | those positions are listed in increasing scope order, so each occurs once |
| CspBase.AssignedTuple | NumberGame/propagators.py:84-87 | the values of a fully assigned scope, position by position |
| CspBase.SupportedMono | NumberGame/propagators.py:110 | a value without support keeps having none after further pruning |
| CspBase.SupportedFrame | NumberGame/propagators.py:110 | support depends only on the domains of the constraint's other scope variables |
| CspBase.ConsistentFrame | NumberGame/propagators.py:133-135 | a consistent constraint stays consistent when variables outside its scope are pruned |
| CspBase.PruneLogStep | NumberGame/propagators.py:111-112 | recording and pruning one present value extends a pruning log: no pair twice, each pair was present before, the domains lose exactly the listed pairs |
| CspBase.Restore | NumberGame/propagators.py:29-32 | the driver's undo keeps the number of variables |
| CspBase.RestoreAdds | NumberGame/propagators.py:29-32 | restoring puts exactly the listed values of each variable back |
| CspBase.RestoreUndoesPruning | NumberGame/propagators.py:29-35 | restoring a propagator's pruning list gives back exactly the domains before the call |
| CspBase.TotalSizeRemove | NumberGame/propagators.py:137 | each prune lowers the total domain size by one, which is why GAC's worklist loop terminates |
| CspBase.NoneAssigned | NumberGame/propagators.py:37-41 | before search no variable is assigned |
| CspBase.Csp.constructor | NumberGame/tenner_csp.py:216-220 | the CSP registered from a problem has its domains and constraints, and nothing assigned |
| CspBase.Csp.PruneValue | NumberGame/propagators.py:112 | `prune_value` removes the value from that variable's domain and changes nothing else |
| Propagators.Examined | NumberGame/propagators.py:98-101 | the constraints forward checking and GAC start from: those on the new variable, or all of them when there is none |
| Propagators.CheckFullyAssigned | NumberGame/propagators.py:83-89 | a constraint fails exactly when all its variables are assigned and their values, in scope order, are not a satisfying tuple |
| Propagators.PropBT | NumberGame/propagators.py:76-90 | nothing is pruned. Without a new variable the result is true. With one, the result is true iff no fully assigned constraint on it fails |
| Propagators.SoleUnassigned | NumberGame/propagators.py:106-107 | Some(p) only when the scope has one unassigned position, and p is that position |
| Propagators.SoleUnassignedComplete | NumberGame/propagators.py:106-107 | conversely, when p is the only unassigned position of the scope, the result is Some(p) |
| Propagators.FcTry | NumberGame/propagators.py:109-114 | one value step of forward checking: an unsupported value is pruned and logged, and an emptied domain is reported |
| Propagators.FcCheck | NumberGame/propagators.py:106-114 | after trying every value, the constraint is settled, meaning every remaining value has support. An emptied domain returns false |
| Propagators.PropFC | NumberGame/propagators.py:93-115 | the domains shrink by exactly the list, and no pair is pruned twice. Each pair is the sole unassigned variable of an examined constraint, with no support. On false, the last prune emptied its variable's domain. On true, no pruned variable is empty and every examined constraint with one unassigned variable is settled |
| Propagators.Enqueue | NumberGame/propagators.py:142-144 | appends the constraints not yet queued, in the order `get_cons_with_var` lists them (AppendNew). The old queue is kept as a prefix, with no duplicates, and membership is the union |
| Propagators.GacPruneStep | NumberGame/propagators.py:135-137 | pruning a value with no support in the current domains, through a constraint the queue can have held, keeps the GAC log, where each pair lacked support when it was pruned, and strictly lowers the total domain size |
| Propagators.GacJustifiedFinal | NumberGame/propagators.py:135-137 | a pair that lacked support when it was pruned still lacks it in the final domains |
| Propagators.SolutionSupported | NumberGame/propagators.py:135 | within domains that contain a solution, every value of that solution has support in every constraint |
| Propagators.GacStepSpares | NumberGame/propagators.py:135-137 | after pruning only pairs that spare a solution, a pair with no support never removes one of the solution's values |
| Propagators.GacSparesSolutionPrefix | NumberGame/propagators.py:128-144 | no pair in a GAC log removes a value of a solution that lies within the domains before |
| Propagators.GacKeepsSolution | NumberGame/propagators.py:118-145 | a solution within the domains before is still a solution within the domains after |
| Propagators.GacPostcondition | NumberGame/propagators.py:118-145 | a GAC log gives both facts PropGAC exports: every pair unsupported in the final domains, and no solution lost |
| Propagators.UnqueuedCannotJustify | NumberGame/propagators.py:122-144 | a constraint never queued, one not on the starting variable and not on any pruned variable, cannot justify a GAC prune even where it gives no support |
| Propagators.GacRequeue | NumberGame/propagators.py:140-144 | re-queueing every constraint on the pruned variable restores the worklist invariant, and queues the revised constraint again |
| Propagators.GacTry | NumberGame/propagators.py:134-144 | one value step of revision: prune, report a wipeout, or re-queue; the log, the queue invariant and the decrease of the measure are kept |
| Propagators.GacRevise | NumberGame/propagators.py:132-144 | after revising a popped constraint: it is consistent, or something was pruned, it was re-queued, and the total domain size fell; failure is a wipeout |
| Propagators.GacLoop | NumberGame/propagators.py:130-145 | the worklist loop keeps the GAC log. It stops with a wipe-out on false. On true the queue is empty, no pruned variable has an empty domain, and every constraint it started from or that is on a pruned variable is consistent |
| Propagators.PropGAC | NumberGame/propagators.py:118-145 | the domains shrink by exactly the list. Every pair lacked support when it was pruned, judged in the domains before minus the pairs ahead of it. The constraint lacking it is one GAC started from or one on a variable pruned earlier, so one the queue can have held. The pair still lacks support at the end. Every solution within the domains before survives. On false, the last prune emptied a domain. On true, every started-from constraint, and every constraint on a pruned variable, is arc consistent. Without a new variable, every constraint is arc consistent |
| Propagators.SizeOrdering | NumberGame/propagators.py:152-155 | one (variable, current domain size) entry per unassigned variable, in variable order |
| Propagators.FirstMinimum | NumberGame/propagators.py:157-158 | the entry a stable sort by size puts first: minimal size, with every earlier entry strictly larger |
| Propagators.OrdMrv | NumberGame/propagators.py:148-158 | an unassigned variable with the smallest current domain among the unassigned; every unassigned variable before it has a strictly larger domain |
| Tenner.Digits | NumberGame/tenner_csp.py:22 | the domain of a blank cell: exactly the ten digits 0..9 |
| Tenner.CellInjective | NumberGame/tenner_csp.py:212-215 | the row-major registration index 10*row+col identifies the cell |
| Tenner.CellDomainRange | NumberGame/tenner_csp.py:20-24 | a cell's domain is never empty. It lies in 0..9 iff the entry is -1 or a digit, and a given entry yields exactly {entry} |
| Tenner.SetUp | NumberGame/tenner_csp.py:12-26 | the board has one row of ten domains per grid row, each being CellDomain of its entry |
| Tenner.ProductMembership | NumberGame/tenner_csp.py:41 | `itertools.product` of the domains: exactly the tuples whose entries lie in the corresponding domains |
| Tenner.SumTuplesMembership | NumberGame/tenner_csp.py:41-43 | the column table: exactly the product tuples whose sum is the required sum |
| Tenner.ColumnSumMeaning | NumberGame/tenner_csp.py:29-45 | ten constraints, one per column. Each scope is that column's cells top to bottom, and its tuples are exactly the in-domain tuples with the column's sum |
| Tenner.ColumnSumConstraint | NumberGame/tenner_csp.py:29-45 | appends exactly the ten column constraints, in column order, to the list |
| Tenner.NotEqualMembership | NumberGame/tenner_csp.py:90-92 | the binary table: exactly the in-domain pairs of different values |
| Tenner.ProcessChoice | NumberGame/tenner_csp.py:199-206 | the neighbour list the builders choose for a cell is exactly the offsets right, down and down-right that stay on the board |
| Tenner.AdjacentForMembership | NumberGame/tenner_csp.py:74-94 | a constraint is added iff some in-bounds offset of `process` gives it, as not-equal on (cell, neighbour) |
| Tenner.AdjacentForLength | NumberGame/tenner_csp.py:80-84 | with every offset in bounds, one constraint per offset |
| Tenner.AdjacentConstraints | NumberGame/tenner_csp.py:74-94 | appends those adjacency constraints, in offset order, to the list |
| Tenner.AdjacencyRowPass | NumberGame/tenner_csp.py:198-207 | appends the adjacency constraints of one row, column by column |
| Tenner.AdjacencyPass | NumberGame/tenner_csp.py:197-207 | appends the adjacency constraints of the whole board, in row-major order |
| Tenner.AdjacencyRowMembership | NumberGame/tenner_csp.py:198-207 | the table of one row's columns below c is exactly the link constraints at those columns |
| Tenner.AdjacencyUpToMembership | NumberGame/tenner_csp.py:197-207 | the table of the first r rows is exactly the link constraints of their cells |
| Tenner.AdjacencyMembership | NumberGame/tenner_csp.py:197-207 | a constraint is in the adjacency table iff it is not-equal between some cell and its right, lower or lower-right neighbour on the board |
| Tenner.AdjacencyRowLength | NumberGame/tenner_csp.py:198-207 | a row above the last adds three constraints per column and one at column 9, 28 in all. The last row adds one per column and none at column 9, 9 in all |
| Tenner.AdjacencyUpToLength | NumberGame/tenner_csp.py:197-207 | the rows above row r add 28 r constraints |
| Tenner.AdjacencyTableLength | NumberGame/tenner_csp.py:197-207 | the adjacency table of an n-row board has 28 n - 19 constraints, and none for an empty board |
| Tenner.NoAntiDiagonal | NumberGame/tenner_csp.py:206 | no adjacency constraint links a cell to its lower-left neighbour, in either order |
| Tenner.RowConstraints1 | NumberGame/tenner_csp.py:97-110 | appends, row by row and in (j, k) order, the not-equal constraints on every pair j < k of a row's cells |
| Tenner.RowPairsLength | NumberGame/tenner_csp.py:103 | the inner loop adds one constraint per k in j+1..9 |
| Tenner.RowUpToLength | NumberGame/tenner_csp.py:102-103 | the pairs loop adds PairCount(j) constraints |
| Tenner.RowTable1Length | NumberGame/tenner_csp.py:101-110 | 45 constraints per row |
| Tenner.RowPairsMembership | NumberGame/tenner_csp.py:103-110 | the inner loop adds exactly the pairs (j, m) with j < m < k |
| Tenner.RowUpToMembership | NumberGame/tenner_csp.py:102-110 | the first j columns give exactly the pairs (a, b) with a < j and a < b < 10 |
| Tenner.RowTable1Membership | NumberGame/tenner_csp.py:97-110 | a constraint is in the model-1 row table iff it is not-equal on cells a < b of one row |
| Tenner.FixedMembership | NumberGame/tenner_csp.py:121-123 | the values removed from `dom` are exactly the given entries of the row |
| Tenner.RemovesOkPrefix | NumberGame/tenner_csp.py:121-123 | if the removals succeed over a prefix, they succeed over every shorter prefix |
| Tenner.RemovesOkIff | NumberGame/tenner_csp.py:122-123 | `dom.remove` never raises iff every given entry is a digit and no given entry repeats |
| Tenner.FreeCellsOrder | NumberGame/tenner_csp.py:124-125 | the all-different scope is exactly the row's blank cells, in column order |
| Tenner.FixedCount | NumberGame/tenner_csp.py:121-125 | given and blank cells add up to the cells scanned, and the given values are digits |
| Tenner.FreeCellsCount | NumberGame/tenner_csp.py:118-125 | what remains of `dom` has exactly one value per blank cell of the row |
| Tenner.PermsMembership | NumberGame/tenner_csp.py:127-128 | `itertools.permutations`: exactly the repetition-free tuples of the set's values, of its length |
| Tenner.RowAllDiffMeaning | NumberGame/tenner_csp.py:113-130 | the row's constraint is over exactly its blank cells. Its tuples are exactly the distinct digits, one per blank cell, none equal to a given entry of the row |
| Tenner.RowAllDiffFor | NumberGame/tenner_csp.py:117-130 | the row's constraint is built iff no removal raises, and it is then that all-different constraint |
| Tenner.RowConstraints2 | NumberGame/tenner_csp.py:113-130 | succeeds iff every row's removals succeed; it then appends one all-different constraint per row, in row order |
| Tenner.RowTable2Length | NumberGame/tenner_csp.py:117-130 | one constraint per row |
| Tenner.FlattenCells | NumberGame/tenner_csp.py:212-215 | the registered variables are 10 per row, and cell (i, j) is variable 10*i+j |
| Tenner.CellOf | NumberGame/tenner_csp.py:212-215 | every variable index is the registration index of its cell |
| Tenner.Register | NumberGame/tenner_csp.py:212-215 | the variables are registered row by row |
| Tenner.TennerModel1 | NumberGame/tenner_csp.py:133-222 | the board is set up from the grid. The problem's variables are the board row by row, and its constraints are the column sums, then the adjacency constraints, then the binary row constraints |
| Tenner.TennerModel2 | NumberGame/tenner_csp.py:228-312 | returns a model iff every row's removals succeed. The constraints are the column sums, the adjacency constraints, the row all-different constraints, then the adjacency constraints again |
| Tenner.AdjacencyTwice | NumberGame/tenner_csp.py:275-299 | in model 2 every adjacency constraint occurs at two places, once before and once after the row constraints |
| Tenner.ScopesOkAppend | NumberGame/tenner_csp.py:219-220 | concatenated constraint lists keep scopes of distinct, registered variables |
| Tenner.ScopesOkFromMembers | NumberGame/tenner_csp.py:219-220 | a list whose members all have good scopes has good scopes |
| Tenner.ColumnScopesOk | NumberGame/tenner_csp.py:29-45 | each column scope names distinct registered variables |
| Tenner.AdjacencyScopesOk | NumberGame/tenner_csp.py:74-94 | each adjacency scope names two distinct registered variables |
| Tenner.Row1ScopesOk | NumberGame/tenner_csp.py:97-110 | each binary row scope names two distinct registered variables |
| Tenner.Row2ScopesOk | NumberGame/tenner_csp.py:113-130 | each all-different scope names distinct registered variables |
| Tenner.FlattenInRange | NumberGame/tenner_csp.py:212-215 | for a grid of -1s and digits, every registered domain lies in 0..9 |
| Tenner.Model1WellFormed | NumberGame/tenner_csp.py:216-222 | model 1 is a well-formed CSP: domains in range, every scope of distinct registered variables |
| Tenner.Model2WellFormed | NumberGame/tenner_csp.py:306-312 | model 2 is a well-formed CSP whenever it is built |
| Tenner.ColumnsGiveDomains | NumberGame/tenner_csp.py:29-45 | a full assignment satisfying every column constraint gives each cell a value of its domain |
| Tenner.NePairSatisfied | NumberGame/tenner_csp.py:102-108 | a pair constraint of a row holds iff both values lie in their domains and differ |
| Tenner.Row1Meaning | NumberGame/tenner_csp.py:95-108 | with values in their domains, the model-1 row table holds iff no row repeats a value |
| Tenner.GivenValue | NumberGame/tenner_csp.py:12-26 | a cell pre-set in the grid takes its pre-set value under any in-domain assignment |
| Tenner.RowAllDiffSatisfied | NumberGame/tenner_csp.py:113-130 | with values in their domains, a row's all-different constraint holds iff the row's ten values, the pre-set ones included, are pairwise different |
| Tenner.RowTable2At | NumberGame/tenner_csp.py:115-130 | entry i of the model-2 row table is row i's all-different constraint |
| Tenner.Row2Meaning | NumberGame/tenner_csp.py:113-130 | with values in their domains and every row's removals succeeding, the model-2 row table holds iff no row repeats a value |
| Tenner.Model1Meaning | NumberGame/tenner_csp.py:133-222 | a full assignment solves model 1 iff it meets the column sums and the adjacency constraints and no row repeats a value |
| Tenner.Model2Meaning | NumberGame/tenner_csp.py:228-312 | where model 2 is built, a full assignment solves it iff it meets the column sums and the adjacency constraints and no row repeats a value |
| Tenner.ModelsAgree | NumberGame/tenner_csp.py:133-312 | where model 2 is built, a full assignment solves model 1 iff it solves model 2 |
| Tenner.RepeatRejected | NumberGame/tenner_csp.py:113-130 | a row repeating a pre-set value stops model 2 from being built and leaves model 1 with no solution |
| Snowman.Abs | BuildSnowman/solution.py:28 | `abs`: the value or its negation, never negative |
| Snowman.Dist | BuildSnowman/solution.py:28 | the Manhattan distance is zero exactly for equal positions |
| Snowman.Weight | BuildSnowman/solution.py:30-35 | the weight of a size is 1, 2 or 3 |
| Snowman.WeightedDistanceZero | BuildSnowman/solution.py:14-36 | the heuristic is never negative, and is 0 exactly when every snowball is at the destination |
| Snowman.HeurManhattanDistance | BuildSnowman/solution.py:26-36 | the loop computes the weighted Manhattan distance of all snowballs |
| Snowman.TrivialHeuristic | BuildSnowman/solution.py:40-44 | the number of snowballs |
| Snowman.HeurZero | BuildSnowman/solution.py:170-172 | always 0 |
| Snowman.EdgeCheck | BuildSnowman/solution.py:77-98 | true iff the snowball is on a board edge that the destination is not on |
| Snowman.EdgeCheckAtDestination | BuildSnowman/solution.py:77-98 | a snowball standing on the destination is never reported as stuck on an edge, whatever the board size |
| Snowman.ObstacleCheck | BuildSnowman/solution.py:101-120 | true iff there is an obstacle above or below the snowball, and one to its left or right |
| Snowman.ObstacleCheckCorners | BuildSnowman/solution.py:111-120 | two obstacles forming a corner make a snowball stuck; two opposite ones do not |
| Snowman.ComboMeaning | BuildSnowman/solution.py:143-144 | a size is a key of `combo` iff some snowball has it, and it maps to the position of the last such snowball |
| Snowman.FirstFromMeaning | BuildSnowman/solution.py:163-165 | the inner loop finds the first snowball of the given priority's size that is off the destination, if there is one |
| Snowman.TargetMeaning | BuildSnowman/solution.py:159-167 | the priority loop targets the first such snowball of the first priority 0, 3, 4, 5, 1, 2 that has one. A size-6 snowball is never targeted |
| Snowman.SizeSixIgnored | BuildSnowman/solution.py:159-167 | with a snowball at the destination and only complete snowmen elsewhere, the result is 0 |
| Snowman.NoneAtDestination | BuildSnowman/solution.py:150-158 | with no snowball at the destination, the lookup fails iff no snowball has the combination's key size. Otherwise the result is the distance to the last snowball of that size |
| Snowman.AllInStep | BuildSnowman/solution.py:147-149 | a combination flag stays set iff the next size is in that combination |
| Snowman.UpdateFlags | BuildSnowman/solution.py:147-149 | each flag becomes false exactly when the size is outside its combination |
| Snowman.ScanCombos | BuildSnowman/solution.py:135-149 | after the scan, each flag says whether every size is in that combination, `combo` is the last-position map, and `none_at_destination` says whether no snowball is at the destination |
| Snowman.FindFirst | BuildSnowman/solution.py:163-165 | the inner scan returns the first candidate |
| Snowman.RobotToTarget | BuildSnowman/solution.py:122-167 | the result of `robot_to_target`, with None where the combo lookup raises KeyError |
| Snowman.HeurAlternateMeaning | BuildSnowman/solution.py:46-74 | the estimate is infinite iff some snowball off the destination is on a bad edge or in an obstacle corner. A finite estimate is at least the weighted Manhattan distance |
| Snowman.HeurAlternate | BuildSnowman/solution.py:54-74 | the loop stops with infinity at the first dead snowball. Otherwise it returns the weighted distance plus the robot's distance to its target |

## Left out

- `cspbase.py` (the Variable, Constraint and CSP classes) and `bt_search` are not part of this model. Their behaviour is specified here from how the propagators use them:
  - a constraint's check is membership of a tuple in its table;
  - `has_support` is `Supported`;
  - `get_cons_with_var` is `ConsWith`;
  - restoring a pruning list is `Restore`.
- Supported, PropFC, PropGAC: domains are taken literally. In `cspbase.py`, an assigned variable's domain reads as its assigned value alone, and its domain size as 1. The model has no such override: it reads every variable's domain from `cur` alone, and treats `cur` as the domains the propagators see.
- Propagators: variables and constraints are identified by their index, not by object identity.
- PropFC, PropGAC: the value loop visits the values 0..9 in increasing order and tests each against the current domain. `cur_domain()` lists the same values as a snapshot, in domain order. The set of values tried is the same, but the order of the pruning list can differ.
- OrdMrv: `sort` followed by taking the first entry is modelled as a first-minimum scan, which gives the entry a stable sort by size puts first. The sort itself is not modelled.
- Tenner: the tables are sets of tuples. The order in which `itertools.product` and `itertools.permutations` enumerate them is not modelled, since a constraint's check only tests membership.
- Tenner: constraint and variable name strings are not modelled.
- Tenner: `row_sum_constraint` is commented out in the source, so it is not modelled.
- Tenner: `row_constraints_2` keeps `dom` as a list, and `list.remove` raises ValueError when a given entry is missing or repeated. The model keeps `dom` as a set, and the ValueError becomes `None` from RowAllDiffFor, RowConstraints2 and TennerModel2.
- Tenner: the builders take the grid and the column sums as two arguments, not as one pair. Each requires at least ten sums, because the source indexes sums 0..9.
- IsGrid: every grid row must have at least ten entries. For a shorter row `set_up` raises IndexError (NumberGame/tenner_csp.py:20); the model does not model that error path and excludes such grids instead.
- Tenner: `CSP.add_constraint` validation and registration are replaced by the Model1WellFormed and Model2WellFormed lemmas and the Csp constructor.
- Tenner: the source has adjacency constraints to the right, below and below-right only, never below-left. The model follows the code (NoAntiDiagonal). The docstring's "diagonally contiguous" is not given the wider reading.
- Snowman: `state.snowballs` is a dict, so each position holds one snowball. The model takes it as a sequence of (position, size) entries in the dict's iteration order, and does not require the positions to be distinct.
- Snowman: `float('inf')` is `Estimate.Infinite`. A KeyError raised by the combo lookup in `robot_to_target` is `None` from RobotToTarget and HeurAlternate.
- ObstacleCheck: the docstring speaks of "more than 2" obstacles. The code tests for an obstacle corner, and the model follows the code.
- Snowman: the search engines, `fval_function`, the anytime searches and the problem set are not part of this model.
- Othello: not part of this model.
