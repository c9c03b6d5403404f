# Percolation state machine, modelled in Dafny

The program shows probabilistic percolation on an N×N grid. Every cell is
empty (0, white), filled (1, blue) or percolated (2, red). A reset makes every
cell empty except the centre `(N/2, N/2)`, which turns red, and it sets the
`percolating` flag. Each tick takes a snapshot of the red cells in row-major
order (the frontier). For every frontier cell, in that order, and for every
on-grid neighbour (right, left, down, up) that is still empty, the tick draws
one trial. When the trial succeeds the neighbour turns red at once, so a
later frontier cell no longer sees it as empty. The tick then turns every
snapshot cell blue. It clears `percolating` when it activated nothing.

This project models that core as pure functions over immutable values:

- `cells.dfy`, module `Cells`: the three cell states and their 0/1/2 code.
- `board.dfy`, module `Board`: the grid as `seq<seq<Cell>>`, single-cell
  writes, and the ordered neighbour list.
- `percolation.dfy`, module `Percolation`: reset, the frontier scan, the
  spreading sweep as a fold over the frontier, demotion, the tick, and a
  driver that applies any sequence of resets and ticks. The invariant
  "`percolating` holds exactly when some cell is red" is proved across any
  such sequence.
- `saturation.dfy`, module `Saturation`: the spread with probability 1.
  After k ticks the red cells are exactly the ring at Manhattan distance k
  from the centre. The grid fills completely. The flag drops at tick
  `2*(N/2)+1`, one tick after the farthest corner turns red.

Randomness is an oracle. A value `oracle: nat -> bool` answers the k-th trial
of a tick, that is, whether `random.random() < p` held for the k-th draw.
`random.random()` lies in [0, 1). So p = 1 is the all-true oracle
(`AllSucceed`) and p = 0 is the all-false oracle (`AllFail`). The oracle is an
infinite stream because the random source never runs out. A trial is drawn
only for a neighbour that is still empty, as in the program. The sweep counts
the draws. Each tick gets its own oracle; one global stream split per tick is
the same thing. The fixed grid size (`GRID_SIZE = 100`) is a parameter
`n > 0`.

With p = 1 on a 5×5 grid the spread reaches the corners, at distance 4 from
`(2, 2)`, in tick 4, and `percolating` drops in tick 5
(`Saturation.FiveByFiveDuration`).

For a general oracle the tick is pinned down exactly. Turn k of the sweep is
the k-th frontier cell in row-major order (`SpreadTurns`). It settles its
neighbours right, left, down, up. It draws one trial per neighbour that is
empty when the turn starts, numbered on from the trials already drawn that
tick (`TurnDecides`, `TurnDraws`). A neighbour claimed by an earlier turn is
red when a later turn reaches it, so that turn draws nothing for it
(`SpreadRace`).

## Model

| member | source | states |
|---|---|---|
| `Cells.Code` | main.py:36 | each state has its own stored integer in 0..2: 0 exactly for empty, 2 exactly for percolated |
| `Cells.Decode` | main.py:36 | exactly the integers 0, 1, 2 are states, and decoding is a right inverse of the code |
| `Board.EncodeGrid` | main.py:36-37 | the stored integer grid has the shape of the cell grid, each entry is in 0..2 and decodes to its cell |
| `Board.Put` | main.py:112 | writing a cell changes that cell to the value written and no other cell, and keeps the N×N shape |
| `Board.Neighbors` | main.py:77-87 | the result holds exactly the on-grid cells at Manhattan distance 1, each once, in the order right, left, down, up |
| `Percolation.NeighborsNoDup` | main.py:77-87 | the neighbour list never repeats a cell |
| `Board.AdjacentSteps` | main.py:80-85 | the four direction offsets are exactly the cells at Manhattan distance 1 |
| `Board.NeighborCount` | main.py:77-87 | one neighbour per side of the cell that is not on the border |
| `Board.NeighborCountByPlace` | main.py:77-87 | a corner has 2 neighbours, another border cell 3, an interior cell 4; the single cell of a 1×1 grid has none |
| `Percolation.Center` | main.py:72 | the seed is (N//2, N//2): equal row and column, with 2·row ≤ N < 2·row + 2, on the grid whenever N > 0 |
| `Percolation.Reset` | main.py:63-75 | all cells are empty except the centre, which is red, the centre is on the grid, and `percolating` is set |
| `Percolation.ResetValid` | main.py:71-75 | right after a reset the flag agrees with "some cell is red" |
| `Percolation.ScanRow` | main.py:97-99 | one row's red cells from a given column on, each once, left to right |
| `Percolation.ScanRows` | main.py:96-99 | the red cells of the rows from a given row on, each once, in row-major order |
| `Percolation.Frontier` | main.py:94-99 | the snapshot lists every red cell of the grid and nothing else, strictly in row-major order |
| `Percolation.Visit` | main.py:110-113 | a neighbour that is not empty is skipped without a draw; an empty one costs exactly one draw and turns red, and is recorded, exactly when that draw succeeds; no other cell changes |
| `Percolation.TryNeighbors` | main.py:109-113 | only cells that were empty turn red, each at most once, only cells from the neighbour list; an all-true oracle leaves no listed neighbour empty; an all-false oracle changes nothing; every activation costs a draw, and there is at most one draw per neighbour |
| `Percolation.TryNeighborsFrame` | main.py:109-113 | a turn changes no cell outside the neighbour list |
| `Percolation.TryNeighborsDraws` | main.py:109-111 | a turn over a repeat-free neighbour list draws exactly one trial per neighbour that is empty when the turn starts |
| `Percolation.TryNeighborsExact` | main.py:109-112 | in a turn the i-th neighbour, if empty, turns red exactly when the trial numbered after the empty neighbours before it succeeds; a non-empty neighbour keeps its state |
| `Percolation.SpreadFrom` | main.py:108-113 | over the whole frontier: only empty cells turn red, each at most once, each next to some frontier cell; all-true leaves no neighbour of the frontier empty; all-false changes nothing |
| `Percolation.SpreadFromSnoc` | main.py:108-109 | frontier cells take their turns in list order: the pass over a list with one more cell is the shorter pass followed by that cell's turn |
| `Percolation.TurnStart` | main.py:106-113 | at the start of every turn each cell either keeps its start-of-tick state or has gone from empty to red, and the sweep lists each such cell exactly once and nothing else |
| `Percolation.SpreadFromPrefix` | main.py:108-113 | the pass over the first k frontier cells is exactly the first k turns |
| `Percolation.Spread` | main.py:106-113 | the activation list is duplicate-free and names exactly the empty-to-red cells, each next to a start-of-tick red cell; with all-true it is exactly the empty cells next to the frontier, with all-false it is empty |
| `Percolation.SpreadTurns` | main.py:106-113 | the spreading pass of a tick is the frontier's turns taken one after another in row-major order, each on the grid and trial count the earlier turns left, starting from the start-of-tick grid with no trial drawn |
| `Percolation.TurnDecides` | main.py:108-112 | across the tick, turn k settles the k-th frontier cell's neighbours in the order right, left, down, up, numbering trials on from the earlier turns, and touches no other cell |
| `Percolation.TurnDraws` | main.py:108-111 | turn k draws exactly one trial per neighbour empty at the start of the turn |
| `Percolation.StaysActive` | main.py:110-112 | a cell that is red at some turn of the pass is still red at every later turn |
| `Percolation.SpreadRace` | main.py:108-112 | once earlier turns have turned a shared neighbour red, a later frontier cell finds it red, leaves it red and draws trials only for its other empty neighbours |
| `Percolation.TurnSkipsClaimed` | main.py:109-111 | a turn that finds one of its neighbours not empty draws exactly one trial for each of its other neighbours that are empty |
| `Percolation.Demote` | main.py:115-117 | exactly the listed cells become blue, every other cell keeps its state |
| `Percolation.Step` | main.py:89-121 | keeps the N×N shape; a tick while not percolating changes nothing; a tick never sets the flag |
| `Percolation.ResetThenAllFail` | main.py:101-121 | with p = 0 the tick after a reset turns the seed blue, leaves all other cells empty and clears the flag |
| `Percolation.StepConsumesFrontier` | main.py:95-117 | every cell red at the start of a percolating tick is blue after it |
| `Percolation.StepOnlyEmptyActivates` | main.py:108-117 | only empty cells turn red, blue cells stay blue, no cell goes back to empty, only blue or red cells end up blue |
| `Percolation.StepSingleGeneration` | main.py:108-113 | every red cell after a tick was empty and next to a start-of-tick red cell, and no cell is activated twice in one tick |
| `Percolation.StepAllFail` | main.py:119-121 | with p = 0 the flag is cleared and no red cell remains |
| `Percolation.StepAllSucceed` | main.py:108-113 | with p = 1 the red cells after the tick are exactly the empty cells next to the start-of-tick frontier |
| `Percolation.StepValid` | main.py:101-121 | a tick keeps the flag equal to "some cell is red" |
| `Percolation.Apply` | main.py:222-234 | a space-bar press resets whatever the state, leaving only the centre red and the flag set; a tick while not percolating changes nothing and a tick never sets the flag |
| `Percolation.Run` | main.py:214-235 | events are handled oldest first; with no event nothing changes, and a session whose last event is a space-bar press ends in the fresh state |
| `Percolation.RunConcat` | main.py:216-235 | handling events a and then b is handling a + b |
| `Percolation.RunValid` | main.py:220-235 | any sequence of space-bar resets and ticks keeps the flag equal to "some cell is red" |
| `Percolation.SessionValid` | main.py:61-75 | from start-up, which ends with a reset, through any events, the flag holds exactly when some cell is red; the stored values are 0, 1 or 2, which holds for the integer view of any cell grid (`Cells.Code`) |
| `Saturation.FloodLayers` | main.py:108-121 | with p = 1, after k ticks the cells nearer than k to the centre are blue, those at distance k red, the rest empty, and the flag is honest |
| `Saturation.TickLayers` | main.py:89-121 | one tick with p = 1 moves the red ring one step outwards |
| `Saturation.FloodDuration` | main.py:119-121 | with p = 1 the flag is set after k ticks exactly when k ≤ 2·(N/2), and after that every cell is blue |
| `Saturation.FiveByFiveFirstTick` | main.py:108-117 | on a 5×5 grid the first tick reddens exactly (2,3), (2,1), (3,2) and (1,2) |
| `Saturation.FiveByFiveDuration` | main.py:119-121 | on a 5×5 grid the flag is still set after tick 4 and cleared from tick 5 on |

## Left out

- The pygame window, event loop, frame clock and quit handling (main.py:7, 32-34, 214-245) are UI plumbing. Only the two events that reach the core are modelled: the space-bar reset and a tick.
- `draw_grid` and `draw_sliders` (main.py:158-212) only render.
- `handle_slider` (main.py:123-156) turns mouse drags into the float `p` and `tick_time`. That is floating-point UI arithmetic. The probability enters the model only through the oracle.
- The wall-clock pacing of ticks (main.py:217, 233-235) is left out. A tick in the event list stands for "the tick interval has elapsed". The loop only ticks while `percolating` is set, and `Step` already does nothing otherwise.
- `random.random()` is replaced by the oracle described above. The model proves no statistical statements about p strictly between 0 and 1.
- `percolation_queue` (main.py:41, 69) is created and cleared but never read, so it is not modelled.
- `TryNeighbors`: the exact draw count and the draw that decides each neighbour are stated only for neighbour lists without repeats (`TryNeighborsDraws`, `TryNeighborsExact`). For other lists only the bounds hold: at least one draw per activation and at most one per neighbour. `get_neighbors` never repeats a cell (`Percolation.NeighborsNoDup`), so every turn of a tick is covered.
