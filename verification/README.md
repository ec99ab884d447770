# Ant-colony maze and tabular Q-learning store, modelled in Dafny

This project models two small engines from a maze path-finding code base.

**The ant-colony maze** (`ACO/ACO/Maze.py`) holds three things:
- a fixed wall layout, where 1 is an open tile and 0 a blocked one;
- a width × length pheromone field, stored as a numpy array and indexed column first;
- the text format the layout is read from and written back in.

Ants report routes: a start coordinate and one compass direction per step. For a route of L > 0 steps, the maze adds q / L to the start cell and to every cell the replay reaches. Evaporation multiplies the whole field by rho. A lookup of an off-grid or blocked position reads 0. The surrounding lookup returns the four neighbours in the order east, north, west, south, with their pheromone and its sum.

**The Q-learning store** (`QLearning/main/QLearning.py`) is a nested dictionary state → (action → value):
- a pair that was never written reads 0;
- a write creates the inner table on demand;
- `update_q` applies the rule `q_old + alfa * (r + gamma * q_max - q_old)`. Here `q_max` is the largest current value among the next state's possible actions.

Modules:
- `Geometry` (geometry.dfy): coordinates, directions, routes, and the trail a replayed route visits.
- `Grids` (grid.dfy): the pheromone field as a value (`seq<seq<real>>`). It defines what each mutator computes (`Deposit`, `DepositRoute`, `DepositRoutes`, `Scale`) and the lemmas about those functions: per-cell gain, totals, order independence, non-negativity, evaporation.
- `LayoutText` (layout.dfy): Python's `str(int)`, `int(str)`, `str.split(" ")` and `str.splitlines()` on the characters the format uses. It also holds the rendering of `__str__`, the parsing part of `create_maze` with its errors, and the parse-after-render round trip.
- `Mazes` (maze.dfy): class `Maze`. The pheromone field is an `array2<real>` updated in place, and the ghost function `Field()` gives its value. Every mutator is proved to leave `Field()` equal to the corresponding `Grids` function of the old field. `__str__` and the file parse are loops proved against `LayoutText`.
- `QLearn` (qlearning.dfy): the table as a value (`Lookup`, `Store`, `ActionValues`, `ArgMax`, `NewValue`, `Update`), and class `QLearning`, whose field `q` the methods reassign.

Pheromone and Q values are `real`. States and actions are type parameters with equality.

## Model

| member | source | states |
|---|---|---|
| Geometry.Offset | ACO/ACO/Maze.py:82-85 | every direction moves exactly one axis, by one step |
| Geometry.MoveAdjacent | ACO/ACO/Maze.py:52 | add_direction moves the coordinate one step along exactly one axis |
| Geometry.Trail | ACO/ACO/Maze.py:40-53 | replaying a route of L steps visits L + 1 cells, starting at the route's start |
| Geometry.TrailStep | ACO/ACO/Maze.py:50-52 | cell i + 1 of a trail is cell i moved by the route's i-th direction |
| Grids.Uniform | ACO/ACO/Maze.py:30-31 | np.ones: a width × length field with the given value in every cell |
| Grids.Deposit | ACO/ACO/Maze.py:47 | one `+=` on a cell keeps the field's shape |
| Grids.DepositCell | ACO/ACO/Maze.py:53 | `pheromones[x, y] += amount` changes that cell by exactly amount and no other cell |
| Grids.DepositAllCell | ACO/ACO/Maze.py:46-53 | after depositing along a list of cells, each cell has gained amount once per occurrence in the list |
| Grids.DepositRoute | ACO/ACO/Maze.py:40-53 | a route deposit keeps the field's shape, and the `route_len != 0` guard makes a zero-step route a no-op |
| Grids.DepositRouteCell | ACO/ACO/Maze.py:40-53 | a route deposit adds k · q / L to a cell visited k times; a cell off the trail is unchanged; a zero-step route changes nothing |
| Grids.TimesProduct | ACO/ACO/Maze.py:46-53 | arithmetic behind DepositRouteCell: k repeated shares of amount sum to k · amount |
| Grids.CountMultiplicity | ACO/ACO/Maze.py:46-53 | the number of visits to a cell is its multiplicity in the trail, and 0 exactly when the trail misses it |
| Grids.TotalDepositAll | ACO/ACO/Maze.py:46-53 | depositing on n in-grid cells raises the field's total by n · amount |
| Grids.TotalDepositRoute | ACO/ACO/Maze.py:40-53 | a route of L > 0 steps that stays in the grid raises the total by (L + 1) · q / L, written q + q / L: q spread over the L steps plus one more share on the start cell |
| Grids.SharesSum | ACO/ACO/Maze.py:46-53 | arithmetic behind TotalDepositRoute: L + 1 shares of q / L sum to q + q / L |
| Grids.DepositRouteNonNegative | ACO/ACO/Maze.py:40-53 | with q ≥ 0, a non-negative field stays non-negative after a route deposit |
| Grids.DepositRoutes | ACO/ACO/Maze.py:58-60 | depositing the routes one after another, in list order, keeps the field's shape |
| Grids.DepositRoutesCell | ACO/ACO/Maze.py:58-60 | depositing a list of routes adds each route's gain to every cell |
| Grids.RoutesGainRemove | ACO/ACO/Maze.py:58-60 | dropping one route from the list removes exactly that route's gain |
| Grids.RoutesGainPermutation | ACO/ACO/Maze.py:58-60 | two lists holding the same routes give every cell the same gain |
| Grids.DepositRoutesOrderIndependent | ACO/ACO/Maze.py:58-60 | the field after add_pheromone_routes does not depend on the order of the routes |
| Grids.Scale | ACO/ACO/Maze.py:64-65 | evaporation keeps the field's shape |
| Grids.ScaleCell | ACO/ACO/Maze.py:64-65 | evaporation multiplies every cell by rho |
| Grids.ScaleOne | ACO/ACO/Maze.py:64-65 | evaporating with rho = 1 leaves the field unchanged |
| Grids.ScaleNonNegative | ACO/ACO/Maze.py:64-65 | with rho ≥ 0, a non-negative field stays non-negative |
| Grids.ScaleDecreases | ACO/ACO/Maze.py:64-65 | with 0 < rho < 1, every positive cell shrinks but stays positive |
| LayoutText.IntToStringSign | ACO/ACO/Maze.py:118-124 | str(i) is non-empty, starts with '-' exactly when i < 0, and is otherwise all decimal digits |
| LayoutText.NatToString | ACO/ACO/Maze.py:118-124 | str() of a natural number is a non-empty string of decimal digits |
| LayoutText.ParseIntCases | ACO/ACO/Maze.py:138-139 | int(token) reads a string of digits as its decimal value; an empty token or a lone sign is not an integer; a negative result needs a leading '-' |
| LayoutText.DigitsValueOfNat | ACO/ACO/Maze.py:138-150 | reading back the decimal digits of n gives n |
| LayoutText.ParseIntToString | ACO/ACO/Maze.py:138-150 | int(str(i)) == i for every integer i, negative ones included |
| LayoutText.IntToStringPlain | ACO/ACO/Maze.py:118-124 | str(i) is non-empty and contains no space and no line break |
| LayoutText.Split | ACO/ACO/Maze.py:137-138 | split(" ") always gives at least one piece, so `dimensions[0]` exists |
| LayoutText.SplitPieces | ACO/ACO/Maze.py:137 | no piece of split(" ") holds a space |
| LayoutText.SplitLines | ACO/ACO/Maze.py:136 | splitlines gives no line exactly when the text is empty |
| LayoutText.SplitLinesPieces | ACO/ACO/Maze.py:136 | no line of splitlines holds a line break |
| LayoutText.SplitSpaced | ACO/ACO/Maze.py:147 | splitting a row of space-terminated tokens on " " gives the tokens and one trailing empty string |
| LayoutText.SplitJoinLines | ACO/ACO/Maze.py:136 | splitlines of newline-terminated lines gives back exactly those lines |
| LayoutText.RenderHeader | ACO/ACO/Maze.py:117-121 | the text starts with "<width> <length> " and a line break |
| LayoutText.ParseRow | ACO/ACO/Maze.py:147-151 | reading one row keeps the number of columns |
| LayoutText.ParseRowColumns | ACO/ACO/Maze.py:147-151 | reading one row from column x on touches no column before x or from width on, and appends at most one value to each column |
| LayoutText.ParseRows | ACO/ACO/Maze.py:146-151 | reading the rows keeps the number of columns |
| LayoutText.ParseRowsColumns | ACO/ACO/Maze.py:146-151 | reading the rows leaves the columns from width on untouched, and a text with fewer than length + 1 lines fails |
| LayoutText.ParseRenderedRows | ACO/ACO/Maze.py:146-151 | parsing the rendered rows from row y appends the rest of every column |
| LayoutText.ParseLayout | ACO/ACO/Maze.py:136-153 | no lines is an IndexError; a successful parse has non-negative dimensions and one column per unit of width |
| LayoutText.ParseRender | ACO/ACO/Maze.py:116-153 | parsing the lines of a rendered rectangular maze gives back its width, length and walls |
| Mazes.Maze.Ones | ACO/ACO/Maze.py:31 | a fresh width × length array with 1.0 in every cell |
| Mazes.Maze.constructor | ACO/ACO/Maze.py:20-27 | a new maze keeps walls, width and length, and its field is all 1.0 |
| Mazes.Maze.InitializePheromones | ACO/ACO/Maze.py:30-31 | the field is replaced by a fresh all-1.0 field of the maze's shape |
| Mazes.Maze.Reset | ACO/ACO/Maze.py:34-35 | whatever came before, the field is all 1.0 again |
| Mazes.Maze.DepositAt | ACO/ACO/Maze.py:53 | one in-place `+=` gives the field Deposit of the old field |
| Mazes.Maze.AddPheromoneRoute | ACO/ACO/Maze.py:40-53 | the new field is DepositRoute of the old one; a zero-step route leaves it unchanged |
| Mazes.Maze.AddPheromoneRoutes | ACO/ACO/Maze.py:58-60 | the new field is the fold of route deposits over the list |
| Mazes.Maze.Evaporate | ACO/ACO/Maze.py:64-65 | the new field is the old one scaled by rho |
| Mazes.Maze.InBounds | ACO/ACO/Maze.py:110-112 | a position is in bounds iff 0 ≤ x < width, 0 ≤ y < length and the wall there is 1 |
| Mazes.Maze.GetPheromone | ACO/ACO/Maze.py:101-105 | the field's value at an in-bounds position, 0 otherwise |
| Mazes.Maze.GetSurroundingPheromone | ACO/ACO/Maze.py:80-96 | the neighbours in the order E, N, W, S, each one's pheromone, and the sum of the four |
| Mazes.Maze.SurroundingIsolated | ACO/ACO/Maze.py:80-96 | on any field, with no neighbour in bounds the four values and their sum are 0 |
| Mazes.Maze.SurroundingSumZero | ACO/ACO/Maze.py:80-96 | on a non-negative field the sum is ≥ 0, and it is 0 iff all four values are 0 |
| Mazes.Maze.ToString | ACO/ACO/Maze.py:116-127 | the loops build exactly the rendering of the walls |
| Mazes.Maze.RowText | ACO/ACO/Maze.py:123-125 | the inner loop builds row y's wall values, each followed by a space |
| Mazes.Maze.ParseMaze | ACO/ACO/Maze.py:136-153 | the loops return exactly ParseLayout of the lines, errors included |
| QLearn.QLearning.constructor | QLearning/main/QLearning.py:9-11 | a new store is empty |
| QLearn.QLearning.GetQ | QLearning/main/QLearning.py:13-23 | the stored value of (state, action), or 0 when the state or the action is unknown |
| QLearn.Lookup | QLearning/main/QLearning.py:13-23 | the stored value of a pair, or 0 when the state or the action is unknown |
| QLearn.Store | QLearning/main/QLearning.py:25-36 | read after write gives the written value; every other pair reads as before; other actions under the same state survive; the inner table is created when missing |
| QLearn.StoreTwice | QLearning/main/QLearning.py:25-36 | of two writes to the same pair, the second wins |
| QLearn.StoreSame | QLearning/main/QLearning.py:25-36 | writing back the value a pair reads changes no lookup |
| QLearn.QLearning.SetQ | QLearning/main/QLearning.py:25-36 | the table becomes Store of the old one: get_q of the pair is the value, and all other pairs are unchanged |
| QLearn.ActionValues | QLearning/main/QLearning.py:38-43 | one value per action, in order, each being the lookup of that action |
| QLearn.QLearning.GetActionValues | QLearning/main/QLearning.py:38-43 | the loop returns ActionValues of the table: same length as the actions, element i is get_q of action i |
| QLearn.ArgMax | QLearning/main/QLearning.py:57 | np.argmax: an index whose value bounds all others, with every earlier value strictly smaller |
| QLearn.NewValue | QLearning/main/QLearning.py:62 | alfa = 1 gives the target r + gamma · q_max; alfa = 0 gives q_old |
| QLearn.NewValueMix | QLearning/main/QLearning.py:62 | the rule is the mix (1 - alfa) · q_old + alfa · (r + gamma · q_max) |
| QLearn.NewValueBetween | QLearning/main/QLearning.py:62 | for 0 ≤ alfa ≤ 1, the new value lies between q_old and the target |
| QLearn.Update | QLearning/main/QLearning.py:53-64 | (state, action) holds the rule applied to its old value and to the maximum old value over the possible actions; every other pair is unchanged; alfa = 0 changes nothing |
| QLearn.QLearning.UpdateQ | QLearning/main/QLearning.py:45-65 | with at least one possible action, the table becomes Update of the old table, with q_max read before the write |

## Left out

- File reading, `print`, `traceback` and `sys.exit` in `create_maze`. `ParseMaze` takes the lines of the file as input.
- `print_pheromones` and `QLearning.printQ`: console output only.
- The episode driver of the Q-learning code, and everything that builds ant routes: not part of these files.
- Floating point: pheromone and Q values are exact reals. Rounding in `q / route_len`, in `*= rho` and in Python's `float()` is not modelled.
- The internals of `Coordinate`, `Direction`, `Route` and `Action` are not part of this model. A direction is taken to move one tile: east +x, north −y, west −x, south +y. A route step is the direction itself, not the one-element list the source unwraps with `dir[0]`. `x_between(lo, hi)` and `y_between(lo, hi)` are taken as half-open, lo ≤ v < hi, which is how `in_bounds` uses them against width and length.
- Mazes.Maze.AddPheromoneRoute: requires every cell of a non-empty route's trail to lie inside the field. Off the field, numpy would wrap negative indices around or raise, and that is not modelled.
- Mazes.Maze.constructor: requires a rectangular wall grid. `create_maze` can build ragged columns when a row holds doubled spaces, and `in_bounds` on such a maze can then raise IndexError; that path is not modelled.
- `int()` is modelled as an optional sign followed by ASCII digits. Surrounding whitespace, underscores and non-ASCII digits are not accepted.
- `str.splitlines()` is modelled as splitting on '\n' only. Other line terminators ('\r', '\r\n', form feeds) are not modelled.
- The unused `start` and `end` fields, and the getters `get_width` and `get_length`, which are the `width` and `length` fields.
- Aliasing of the inner dictionaries of the Q-table: the table is a value, so no other reference to an inner dictionary can observe a write.
- QLearn.QLearning.UpdateQ: requires at least one possible action. On an empty list `np.argmax` raises ValueError (QLearning/main/QLearning.py:56-57), and that error path is not modelled.
- QLearn.ArgMax: NaN ordering in numpy's argmax is not modelled, because values are reals.
