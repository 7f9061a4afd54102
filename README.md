# blob-simulation in Dafny

This project models, in Dafny, the simulation engine of *blob-simulation*, a
simulator of a slime-mould-like organism (the "blob") that forages on a
discrete grid. Each square of the board carries a blob intensity clamped to
`[0, 255]`, a food amount and a touched flag. A colony of agents ("scouters")
explores the board, leaves a trail of intensity, discovers food, harvests it
and changes the colony's size according to what the board shows. The model
also covers the older ("legacy") board, agents and managers that the player
and the calibration tools still use, and the small interactive helpers of the
detection pipeline, whose state changes with each click and key press.

One module per source file:

| module | file | source |
|---|---|---|
| `SimulationBoard` | `board.dfy` | `simulation/board.py` |
| `Actions` | `actions.dfy` | `simulation/logic/actions.py` and `blob/actions.py` (identical tables) |
| `Shared` | `shared.dfy` | the `knowledge` dictionary the agents share: configuration, known food, target colony size |
| `DumbScouterModel` | `dumb_scouter.dfy` | `simulation/logic/dumb_scouter.py` |
| `Pathing` | `pathing.dfy` | the cost-matrix, path-trimming and path-following steps shared by the agents, and the A* search as a parameter |
| `SensingScouterModel` | `sensing_scouter.dfy` | `simulation/logic/sensing_scouter.py` |
| `AdvancedScouterModel` | `advanced_scouter.dfy` | `simulation/logic/advanced_scouter.py` |
| `GathererModel` | `gatherer.dfy` | `simulation/logic/gatherer.py` |
| `FSMAntModel` | `fsm_ant.dfy` | `simulation/logic/fsm_ant.py` |
| `BlobManagerModel` | `blob_manager.dfy` | `simulation/logic/blob_manager.py` |
| `LegacyManagerModel` | `legacy_manager.dfy` | `simulation/logic/main.py` |
| `LegacyBoard` | `legacy_board.dfy` | `board.py` |
| `LegacySensingModel` | `legacy_sensing.dfy` | `blob/sensing_scouter.py` |
| `LegacyGathererModel` | `legacy_gatherer.dfy` | `blob/gatherer.py` |
| `PlayerModel` | `player.dfy` | `player.py` and `simulation/player.py` |
| `ColorRange`, `SetupInput` | `colors.dfy` | the colour-range computation and key decoding shared by the detection helpers |
| `FoodColorsModel` | `food_colors.dfy` | `detection/food_colors.py` |
| `LimitsMakerModel` | `limits_maker.dfy` | `detection/limits_maker.py` |
| `SetupModel` | `setup.dfy` | `detection/setup.py` (its `FoodColor` also stands for the identical class in `detection/setup_detection.py`) |
| `SetupDetectionModel` | `setup_detection.dfy` | `detection/setup_detection.py` |
| `Common`, `Text` | `common.dfy`, `text.dfy` | helpers: `list.remove`, Python `int()` on floats, sight windows, string split and strip |

Each Python object whose fields its methods update is a Dafny `class`. Board
arrays are `array2` fields indexed `[x, y]`, and agent and food lists are
`seq` fields. An agent's decision step is also a pure function of its
inputs, such as `Next`, `Scout`, `Gather` or `Advance`. Its method is proved
to produce exactly that function's value (`ensures ... == old(Next(...))`),
and lemmas state what the function guarantees. Randomness enters as
parameters: a step `dx, dy`, a draw `u`, a `pick` index, or a sequence of
draws. The A* search of the `pathfinding` library enters as a parameter
`find`, and all that is assumed of it is `Pathing.FinderContract`: the path
is empty or starts at the start, stays in the grid, and ends at the end when
the end is in the grid. Python floats are `real`. Python `int()` on a float is
`Common.Trunc`, truncation toward zero.

Where the documented design and the code disagree, the model follows the code:

- A sensing scouter with a sightline `<= 0` sees a radius of 1, not the whole
  board (`simulation/logic/sensing_scouter.py:33`). A gatherer with a
  sightline `<= 0` uses `max(width, height)` (`simulation/logic/gatherer.py:49`).
- The advanced scouter's global score divides the inner window's sum by the
  area of the outer window (`simulation/logic/advanced_scouter.py:59-61`).
- On the last known food, the harvest asked for is `min(harvest_min,
  harvest_max - stored)`, not enough to reach the minimum
  (`simulation/logic/fsm_ant.py:101-108`).
- A gatherer's cost for an untouched square is 0, and the sensing scouter's
  is 1 (`simulation/logic/gatherer.py:54-75`).
- The player's random food with no band requested (`None`) uses the bottom
  half, because the `elif not random_top` branch overrides the whole-board
  branch (`player.py:41-50`).

## Model

| member | source | states |
|---|---|---|
| Actions.SimpleAreOrthogonal | simulation/logic/actions.py:4-7 | the four simple moves are distinct, and a step is one of them iff it is a unit step of Manhattan length 1 |
| Actions.DiagAreDiagonal | simulation/logic/actions.py:9-12 | the four diagonal moves are distinct unit steps with both components non-zero |
| Actions.AllAreUnitMoves | simulation/logic/actions.py:14-16 | the eight moves are distinct, and a step is one of them iff it is a unit step other than (0, 0) |
| SimulationBoard.Clamp | simulation/board.py:83-89 | the stored intensity always lies in [MIN_BLOB, MAX_BLOB], and equals the value when that is in range |
| SimulationBoard.DecayedCases | simulation/board.py:136-141 | the decay pass lowers a touched square by the decay rate, clamped at 0, except a food square already at or below the food floor, which keeps its intensity; untouched squares do not change |
| SimulationBoard.EatOutcomeSpec | simulation/board.py:91-101 | eating from a square gives back at most what was asked and at most what the square holds, and the rest plus what was eaten equals the old amount |
| SimulationBoard.Decayed | simulation/board.py:136-141 | the value one decay pass gives a square; its cases are stated by DecayedCases |
| SimulationBoard.EatOutcome | simulation/board.py:91-101 | what eating returns and leaves on a square; its bounds are stated by EatOutcomeSpec |
| SimulationBoard.CompareAsWrittenReadsOutside | simulation/board.py:150 | the size guard as written lets a 2x2 board be compared with a 2x1 board, whose row 1 does not exist |
| SimulationBoard.ComparableReadsInside | simulation/board.py:149-161 | with the corrected guard every square read from the other board is one of its squares |
| SimulationBoard.Board.constructor | simulation/board.py:20-32 | a new board has the given size, no food, zero intensity and no touched square |
| SimulationBoard.Board.QueriesOutside | simulation/board.py:103-116 | outside the board `has_food` and `is_touched` are false and `get_blob` is None |
| SimulationBoard.Board.SetFood | simulation/board.py:75-77 | the square gets the given food amount and every other square keeps its state |
| SimulationBoard.Board.RemoveFood | simulation/board.py:79-81 | the square's food becomes 0 and nothing else changes |
| SimulationBoard.Board.UpdateBlob | simulation/board.py:83-89 | the square becomes touched with its intensity plus the change, clamped to [0, 255], and nothing else changes |
| SimulationBoard.Board.EatFood | simulation/board.py:91-101 | the food left and the amount returned follow the eat rule, and no other square changes |
| SimulationBoard.Board.Reset | simulation/board.py:143-147 | the square becomes untouched with no food and zero intensity, and nothing else changes |
| SimulationBoard.Board.CountRowsSplit | simulation/board.py:118-126 | the touched count over the whole height is the top-half count plus the bottom-half count |
| SimulationBoard.Board.CoverBounds | simulation/board.py:118-126 | the whole-board and top-half cover percentages lie in [0, 100] |
| SimulationBoard.Board.CoverBottomBound | simulation/board.py:118-126 | the bottom-half cover, doubled as the source does, lies in [0, 100 * 2 * (h - h/2) / h] |
| SimulationBoard.Board.CoverHalvesMean | simulation/board.py:118-126 | on an even height the whole-board cover is the mean of the two half covers |
| SimulationBoard.Board.ColumnSumBounds | simulation/board.py:128-134 | a column's intensity sum lies in [0, 255 * rows] on a bounded board |
| SimulationBoard.Board.RectSumBounds | simulation/board.py:128-134 | the board's intensity sum lies in [0, 255 * area] on a bounded board |
| SimulationBoard.Board.BlobTotal | simulation/board.py:128-134 | the result is the intensity sum over width, height and MAX_BLOB, times 100, and lies in [0, 100] on a bounded board |
| SimulationBoard.Board.ManageBlob | simulation/board.py:136-141 | every square becomes its decayed value and nothing else changes |
| SimulationBoard.Board.Compare | simulation/board.py:149-161 | with the corrected `or` size guard (see Findings; the source writes `and`), boards of different sizes give None; otherwise the result is a board whose intensity, food and touched arrays are the squarewise differences |
| SimulationBoard.Board.CompareColumn | simulation/board.py:155-159 | one column of the difference board holds the squarewise differences and the other columns are unchanged |
| DumbScouterModel.DumbScouter.constructor | simulation/logic/dumb_scouter.py:25-36 | the agent stands at (x, y) and drops the configured drop-by-eat amount |
| DumbScouterModel.DumbScouter.WithDrop | simulation/logic/main.py:12 | an agent built with an explicit drop amount, as the legacy manager builds them |
| DumbScouterModel.DumbScouter.Move | simulation/logic/dumb_scouter.py:38-46 | the agent moves by the drawn step iff the target square is on the board, and otherwise stays; each coordinate changes by at most 1 |
| DumbScouterModel.DumbScouter.Update | simulation/logic/dumb_scouter.py:48-51 | the agent's square becomes touched with its intensity raised by the drop, clamped, and nothing else changes |
| Pathing.CostMatrix | simulation/logic/sensing_scouter.py:38-50 | the cost matrix has one row per window row and one column per window column, and each entry is the cost function applied to the square's intensity and touched flag |
| Pathing.TrimAndShift | simulation/logic/sensing_scouter.py:86-89 | the path loses its first node and every node is moved from window to board coordinates |
| Pathing.Trimmed | simulation/logic/sensing_scouter.py:86-89 | the trimmed path is one node shorter than a non-empty search result, and empty for an empty one |
| Pathing.ShiftedPathInWindow | simulation/logic/sensing_scouter.py:86-89 | every node of a trimmed path lies in the window, and a path of two nodes or more ends at the goal in board coordinates |
| Pathing.SearchInWindow | simulation/logic/sensing_scouter.py:67-89 | for any search meeting the finder contract the planned path stays in the window and ends at the goal when the goal is in the window |
| Pathing.ShiftLocal | simulation/logic/sensing_scouter.py:79-81 | converting a square to window coordinates and back gives the same square |
| Pathing.FollowSpec | simulation/logic/sensing_scouter.py:115-124 | following a path moves to its first node and keeps the rest; an empty path drops the goal; reaching the goal clears goal and path |
| Pathing.FollowStaysOn | simulation/logic/sensing_scouter.py:115-124 | following a path that lies on the board keeps the agent and the rest of the path on the board, and a path ending at the goal still ends there |
| SensingScouterModel.ScoutCostBands | simulation/logic/sensing_scouter.py:38-50 | every cost is positive; a touched square with intensity costs between 1.5 and 384, less for a stronger trail; a touched empty square costs 510 and an untouched one 1 |
| SensingScouterModel.ScoutCost | simulation/logic/sensing_scouter.py:38-50 | the scouter's cost of a square; its bands are stated by ScoutCostBands |
| SensingScouterModel.Scored | simulation/logic/sensing_scouter.py:52-60 | the window's squares are listed with their intensities, the agent's own square excluded |
| SensingScouterModel.Unmasked | simulation/logic/sensing_scouter.py:52-60 | the candidate squares are exactly the window's squares other than the agent's own |
| SensingScouterModel.NeighbourInSight | simulation/logic/sensing_scouter.py:52-65 | the candidate list is empty iff the board is a single square |
| SensingScouterModel.LoneSquare | simulation/logic/sensing_scouter.py:52-65 | on a single-square board there is no candidate goal |
| SensingScouterModel.LocalGoal | simulation/logic/sensing_scouter.py:52-65 | no goal iff the board is a single square; otherwise the goal is in the window, differs from the agent's square and has minimal intensity among the candidates |
| SensingScouterModel.ScoutPlanInWindow | simulation/logic/sensing_scouter.py:67-89 | the planned path stays in the window and ends at the goal when the goal is in the window |
| SensingScouterModel.BestWayTo | simulation/logic/sensing_scouter.py:67-89 | the method returns the plan: the search over the window's cost matrix, trimmed and moved to board coordinates |
| SensingScouterModel.PlanSpec | simulation/logic/sensing_scouter.py:105-113 | a re-plan keeps the agent on the board and, when a path is found, tracks the goal |
| SensingScouterModel.Plan | simulation/logic/sensing_scouter.py:105-113 | the path a move follows: a fresh plan or the kept one; PlanSpec states its properties |
| SensingScouterModel.ProceedStep | simulation/logic/sensing_scouter.py:94-124 | one step of the scouter's move is exactly the value of the move function |
| SensingScouterModel.ProceedSpec | simulation/logic/sensing_scouter.py:105-124 | a step keeps position and path on the board, and an agent following its plan keeps tracking its goal |
| SensingScouterModel.Pursuit | simulation/logic/sensing_scouter.py:96-103 | the goal kept or chosen is the old goal unless it is missing or reached, and then a fresh local goal |
| SensingScouterModel.ScoutSpec | simulation/logic/sensing_scouter.py:94-124 | a whole move keeps the agent on the board, and keeps the path non-empty and ending at the goal whenever plans are cached |
| SensingScouterModel.Scout | simulation/logic/sensing_scouter.py:94-124 | where one move takes a scouter; ScoutSpec states its properties |
| SensingScouterModel.ScoutStep | simulation/logic/sensing_scouter.py:94-124 | the method computes exactly the model's move |
| SensingScouterModel.SensingScouter.constructor | simulation/logic/sensing_scouter.py:29-36 | the agent stands at (x, y) with no goal or path and a sight radius of the sightline, or 1 when the sightline is not positive |
| SensingScouterModel.SensingScouter.NextSpec | simulation/logic/sensing_scouter.py:94-124 | the agent's next state stays on the board and keeps tracking its goal |
| SensingScouterModel.SensingScouter.Move | simulation/logic/sensing_scouter.py:94-124 | the new position, goal and path are the model's move from the old state |
| SensingScouterModel.SensingScouter.Reset | simulation/logic/sensing_scouter.py:126-130 | the agent goes back to (0, 0) with no goal and no path |
| SensingScouterModel.FreshPlanTracks | simulation/logic/sensing_scouter.py:105-113 | a freshly found path tracks the goal it was planned for |
| AdvancedScouterModel.Neighbourhood | simulation/logic/advanced_scouter.py:55-58 | the inner window around a square is the square's sight window clipped to the outer window |
| AdvancedScouterModel.GlobalScoreRange | simulation/logic/advanced_scouter.py:56-61 | on a bounded board each global score lies in [0, 255] |
| AdvancedScouterModel.GlobalScore | simulation/logic/advanced_scouter.py:55-61 | the neighbourhood trail divided by the whole window's area; GlobalScoreRange bounds it |
| AdvancedScouterModel.GlobalMinimaSpec | simulation/logic/advanced_scouter.py:63-69 | the candidates are exactly the window squares whose global score is minimal, and there is at least one |
| AdvancedScouterModel.MinimumIsLeast | simulation/logic/advanced_scouter.py:63-69 | a square of minimal score is a candidate |
| AdvancedScouterModel.LeastIsMinimum | simulation/logic/advanced_scouter.py:63-69 | every candidate has a score no greater than any other square of the window |
| AdvancedScouterModel.GlobalGoal | simulation/logic/advanced_scouter.py:49-69 | the global goal is a window square of minimal global score |
| AdvancedScouterModel.ChooseGlobalGoal | simulation/logic/advanced_scouter.py:49-69 | the method returns the global goal for the drawn index |
| AdvancedScouterModel.ScoreWindow | simulation/logic/advanced_scouter.py:53-61 | the loops list every window square with its global score, column by column |
| AdvancedScouterModel.ScoreColumn | simulation/logic/advanced_scouter.py:54-61 | one column of the window is scored |
| AdvancedScouterModel.ScoreOf | simulation/logic/advanced_scouter.py:55-61 | one square's score is the inner window's intensity sum (`RectSum`) divided by the outer window's area, which is `GlobalScore` |
| AdvancedScouterModel.ListScores | simulation/logic/advanced_scouter.py:63-69 | the minimum-score candidates are collected from the scored list |
| AdvancedScouterModel.NextState | simulation/logic/advanced_scouter.py:35-44 | the policy state after a draw is 0 (local) or 1 (global): local moves to global when off food or not searching locally and the draw exceeds the explore probability, and global moves back when the draw is below it |
| AdvancedScouterModel.NextStateSpec | simulation/logic/advanced_scouter.py:35-44 | from the local state the scouter goes global iff the draw exceeds the probability and it is not on food with local search on, and stays local otherwise; from the global state it goes local iff the draw is at most the probability; probability 1 keeps a local scouter local and a negative one keeps a global scouter global for draws in [0, 1) |
| AdvancedScouterModel.Aim | simulation/logic/advanced_scouter.py:35-47 | the chosen goal, if any, is on the board |
| AdvancedScouterModel.AimSpec | simulation/logic/advanced_scouter.py:35-47 | in local state the goal is a local minimum other than the agent's square; in global state it is a square of minimal global score |
| AdvancedScouterModel.ChooseGoal | simulation/logic/advanced_scouter.py:35-47 | the method switches the state and returns the goal the model chooses |
| AdvancedScouterModel.Target | simulation/logic/advanced_scouter.py:71-77 | standing on food while searching locally in global state forces the local state and drops the goal |
| AdvancedScouterModel.FocusLeads | simulation/logic/advanced_scouter.py:71-77 | after refocusing, the agent's plan still leads to its goal |
| AdvancedScouterModel.AdvanceSpec | simulation/logic/advanced_scouter.py:71-77 | a move keeps the agent and its path on the board and keeps tracking the goal |
| AdvancedScouterModel.Advance | simulation/logic/advanced_scouter.py:71-77 | where a move takes the scouter after the food check; AdvanceSpec states its properties |
| AdvancedScouterModel.PursueStep | simulation/logic/advanced_scouter.py:71-77 | the method computes exactly the model's move |
| AdvancedScouterModel.AdvancedScouter.constructor | simulation/logic/advanced_scouter.py:31-33 | the agent starts in the local state at (x, y) with no goal or path |
| AdvancedScouterModel.AdvancedScouter.StateAfter | simulation/logic/advanced_scouter.py:71-77 | the state after a move is the one the refocus rule and the state switch give |
| AdvancedScouterModel.AdvancedScouter.NextSpec | simulation/logic/advanced_scouter.py:71-77 | the agent's next state stays on the board and keeps tracking its goal |
| AdvancedScouterModel.AdvancedScouter.Move | simulation/logic/advanced_scouter.py:71-77 | the new position, goal, path and policy state are the model's move from the old state |
| AdvancedScouterModel.AdvancedScouter.Reset | simulation/logic/sensing_scouter.py:126-130 | the agent goes back to (0, 0) with no goal or path; the policy state is kept |
| GathererModel.GatherCostBands | simulation/logic/gatherer.py:54-75 | a touched square with intensity costs between 1 and 256, less for a stronger trail; a touched empty square costs 510 and an untouched one 0 |
| GathererModel.GatherCost | simulation/logic/gatherer.py:54-75 | the gatherer's cost of a square; its bands are stated by GatherCostBands |
| GathererModel.CrossingSpec | simulation/logic/gatherer.py:91-102 | a crossing parameter, when defined, lies in [0, 1] and puts the line on the window edge it was computed for |
| GathererModel.EntryDefined | simulation/logic/gatherer.py:104-109 | when the agent is inside the window and the goal is outside, both the as-written and the corrected entry parameters are defined and lie in [0, 1], so the `t` that may be None never is |
| GathererModel.EntryAsWritten | simulation/logic/gatherer.py:104-109 | the entry parameter as written, with `min`; EntryDefined and SightGoalLeavesWindow state what it gives |
| GathererModel.Entry | simulation/logic/gatherer.py:104-109 | the corrected entry parameter, with `max`; EntryDefined and SightGoalInGrid state what it gives |
| GathererModel.RestDecreases | simulation/logic/gatherer.py:114-120 | each step of the walk toward the agent brings `t` closer to 1, so the loop ends |
| GathererModel.SightGoalLeavesWindow | simulation/logic/gatherer.py:109 | with `min` the local goal can fall outside the window: on a 10x10 board with (3, 6) touched, agent (5, 5), sightline 1 and goal (0, 9), the local goal is (-1, 2) |
| GathererModel.SightGoalAsWritten | simulation/logic/gatherer.py:77-122 | compute_sight_see_goal as written; SightGoalLeavesWindow exhibits a goal it puts outside the window |
| GathererModel.WalkInWindow | simulation/logic/gatherer.py:112-120 | every square the walk visits from the entry point lies in the window |
| GathererModel.Walk | simulation/logic/gatherer.py:112-120 | the walk from the entry point toward the agent; WalkInWindow states that it stays in the window |
| GathererModel.SightGoalInGrid | simulation/logic/gatherer.py:77-122 | with the corrected entry the local goal is in the window grid, and equals the goal in window coordinates when the goal is inside |
| GathererModel.SightGoal | simulation/logic/gatherer.py:77-122 | compute_sight_see_goal with the corrected entry; SightGoalInGrid states that its result lies in the window grid |
| GathererModel.ComputeSightGoal | simulation/logic/gatherer.py:77-122 | the method computes the corrected local goal |
| GathererModel.EntryParameter | simulation/logic/gatherer.py:91-109 | the method computes the corrected entry parameter from the four edge crossings |
| GathererModel.WalkFrom | simulation/logic/gatherer.py:112-120 | the loop walks from the entry point toward the agent until a touched square or `t > 1` |
| GathererModel.GatherPlanEnds | simulation/logic/gatherer.py:124-146 | a non-empty plan ends at the goal when the goal is in the window. This uses the corrected entry (see Findings). |
| GathererModel.GatherPlan | simulation/logic/gatherer.py:124-146 | the gatherer's plan toward a food; GatherPlanEnds and GatherPlanOn state where it ends and that it stays on the board. This uses the corrected entry (see Findings). |
| GathererModel.GatherPlanOn | simulation/logic/gatherer.py:124-146 | the plan stays in the window and on the board. This uses the corrected entry (see Findings). |
| GathererModel.BestWayTo | simulation/logic/gatherer.py:124-146 | the method returns the plan: the search toward the local goal, trimmed and moved to board coordinates. This uses the corrected entry (see Findings). |
| GathererModel.FirstHit | simulation/logic/gatherer.py:155-170 | the first draw that names a food other than the agent's square, if there is one |
| GathererModel.Choice | simulation/logic/gatherer.py:155-170 | no goal iff the food list is empty, or holds only the agent's square; otherwise the goal is a known food other than the agent's square |
| GathererModel.ChooseGoal | simulation/logic/gatherer.py:155-170 | the method returns the model's choice for the given draws |
| GathererModel.ApproachStep | simulation/logic/gatherer.py:195-216 | one step toward the goal is exactly the value of the approach function |
| GathererModel.Route | simulation/logic/gatherer.py:195-205 | the path a move follows: a fresh plan when nothing is kept or light compute is off, else the kept path |
| GathererModel.Approach | simulation/logic/gatherer.py:195-216 | the second half of a move once the goal is known; ApproachStep computes it and GatherSpec states its properties. This uses the corrected entry (see Findings). |
| GathererModel.GatherSpec | simulation/logic/gatherer.py:181-216 | a move keeps the agent and its path on the board; a goal, when kept, is a known food. This uses the corrected entry (see Findings). |
| GathererModel.Gather | simulation/logic/gatherer.py:181-216 | where one move takes a gatherer; GatherSpec states that it stays on the board with a known-food goal. This uses the corrected entry (see Findings). |
| GathererModel.GatherStep | simulation/logic/gatherer.py:181-216 | the method computes exactly the model's move. This uses the corrected entry (see Findings). |
| GathererModel.Gatherer.constructor | simulation/logic/gatherer.py:35-52 | the agent stands at (x, y) with no goal or path, and its sight radius is the sightline, or max(width, height) when the sightline is not positive |
| GathererModel.Gatherer.NextSpec | simulation/logic/gatherer.py:181-216 | the agent's next state stays on the board and its goal is a known food. This uses the corrected entry (see Findings). |
| GathererModel.Gatherer.Move | simulation/logic/gatherer.py:181-216 | the new position, goal and path are the model's move from the old state. This uses the corrected entry (see Findings). |
| GathererModel.Gatherer.Reset | simulation/logic/gatherer.py:172-179 | the agent goes back to (0, 0) with no goal and no path |
| FSMAntModel.EatRatioRange | simulation/logic/fsm_ant.py:91-94 | the eat ratio lies in [0, eat]: the full eat amount on an empty square, and 0 on a saturated one |
| FSMAntModel.Spent | simulation/logic/fsm_ant.py:96-98 | a scouting ant spends the ratio from its store, never going below 0, and a starving ant spends nothing |
| FSMAntModel.HarvestBounded | simulation/logic/fsm_ant.py:101-108 | the amount asked for and the amount received are non-negative, and the store never exceeds its maximum |
| FSMAntModel.Starving | simulation/logic/fsm_ant.py:114-120 | an ant starts starving only with an empty store, stops starving only at or above the minimum, and a starving ant has less than the minimum |
| FSMAntModel.FSMAnt.constructor | simulation/logic/fsm_ant.py:38-54 | the ant starts scouting at (x, y) with `harvest_min` stored, and owns a fresh gatherer and a fresh advanced scouter at the same square |
| FSMAntModel.FSMAnt.Move | simulation/logic/fsm_ant.py:56-67 | a starving ant moves as its gatherer and a scouting ant as its advanced scouter; the other sub-agent is unchanged |
| FSMAntModel.FSMAnt.InitGathering | simulation/logic/fsm_ant.py:69-75 | the gatherer is placed on the ant's square with no goal or path |
| FSMAntModel.FSMAnt.InitScouting | simulation/logic/fsm_ant.py:77-83 | the scouter is placed on the ant's square with no goal or path |
| FSMAntModel.FSMAnt.Update | simulation/logic/fsm_ant.py:85-120 | the ant drops its eat-ratio trail, spends, harvests the food on its square (removing the food from the list when it runs out) and switches state; no other square changes and the store stays in [0, harvest_max]; a sub-agent that is not re-initialised is unchanged, and the scouter keeps its policy state |
| FSMAntModel.FSMAnt.Eat | simulation/logic/fsm_ant.py:91-98 | the drop and the store follow the eat ratio, and only the ant's square changes |
| FSMAntModel.FSMAnt.Consume | simulation/logic/fsm_ant.py:96-98 | the store becomes the spent amount and never grows |
| FSMAntModel.FSMAnt.DropTrail | simulation/logic/fsm_ant.py:91-94 | the ant's square becomes touched with the drop added, clamped, and nothing else changes |
| FSMAntModel.FSMAnt.Harvest | simulation/logic/fsm_ant.py:101-111 | the store grows by what the square gives, the square keeps the rest, and an exhausted square leaves the food list |
| FSMAntModel.FSMAnt.Switch | simulation/logic/fsm_ant.py:114-120 | the state follows the starving rule; the sub-agent taking over is placed on the ant's square with no goal or path; a sub-agent whose branch does not fire is unchanged, and the scouter keeps its policy state |
| BlobManagerModel.ColumnNoDup | simulation/logic/blob_manager.py:118-126 | the squares of one column are listed once each |
| BlobManagerModel.CellsNoDup | simulation/logic/blob_manager.py:118-126 | the board's squares are listed once each |
| BlobManagerModel.FoodCellsSpec | simulation/logic/blob_manager.py:39-43 | the seeded food list holds exactly the touched squares with food |
| BlobManagerModel.FoodCellsNoDup | simulation/logic/blob_manager.py:39-43 | the seeded food list has no duplicates |
| BlobManagerModel.MaxScouters | simulation/logic/blob_manager.py:108-115 | the target colony size is at least the configured minimum and at least the truncated demand |
| BlobManagerModel.Demand | simulation/logic/blob_manager.py:108-115 | the weighted board statistics behind the target size; MoreFoodMoreScouters states its monotonicity |
| BlobManagerModel.MoreFoodMoreScouters | simulation/logic/blob_manager.py:108-115 | with non-negative weights, more known food never lowers the target size |
| BlobManagerModel.AvailablesSpec | simulation/logic/blob_manager.py:118-126 | the sampling list holds the touched squares, each weighted by its intensity plus 1, and is empty iff no square is touched |
| BlobManagerModel.Availables | simulation/logic/blob_manager.py:118-126 | the weighted touched squares; AvailablesSpec states what they are |
| BlobManagerModel.WeightAtLeastCount | simulation/logic/blob_manager.py:128-137 | the total weight is at least the number of entries |
| BlobManagerModel.Reach | simulation/logic/blob_manager.py:133-137 | the walk stops at the first entry whose running weight reaches the draw |
| BlobManagerModel.ReachFound | simulation/logic/blob_manager.py:133-137 | a draw no greater than the total weight is reached before the end of the list |
| BlobManagerModel.BlobSquareSpec | simulation/logic/blob_manager.py:117-137 | the spawn square is on the board, and it is touched iff some square of the board is |
| BlobManagerModel.BlobSquare | simulation/logic/blob_manager.py:117-137 | the square find_blob_square returns for a draw; BlobSquareSpec states that it is on the board and touched when any square is |
| BlobManagerModel.FindBlobSquare | simulation/logic/blob_manager.py:117-137 | the method returns the model's weighted choice of a touched square, or (0, 0) when none is touched |
| BlobManagerModel.WalkWeights | simulation/logic/blob_manager.py:133-137 | the loop returns the entry the weighted draw reaches |
| BlobManagerModel.CollectAvailables | simulation/logic/blob_manager.py:118-126 | the loops collect the sampling list and its total weight |
| BlobManagerModel.CollectColumn | simulation/logic/blob_manager.py:119-126 | one column's entries and their weight are collected |
| BlobManagerModel.ScanFood | simulation/logic/blob_manager.py:39-43 | the loops collect the touched food squares in scan order |
| BlobManagerModel.ScanColumn | simulation/logic/blob_manager.py:40-43 | scanning one more column appends that column's touched food squares |
| BlobManagerModel.ApartRemoveAt | simulation/logic/blob_manager.py:104-106 | removing one ant keeps the others distinct |
| BlobManagerModel.ApartRemoveFirst | simulation/logic/blob_manager.py:86-88 | removing a listed ant removes exactly that ant |
| BlobManagerModel.RedrawsHit | simulation/logic/gatherer.py:155-170 | with two or more distinct foods, draws holding 0 and 1 name a food other than the agent's square |
| BlobManagerModel.Walk | simulation/logic/blob_manager.py:61-62 | moving an ant keeps its store and its state |
| BlobManagerModel.Feed | simulation/logic/blob_manager.py:66-68 | an update touches only the ant's square, and the food list loses the square exactly when its food runs out |
| BlobManagerModel.FeedListed | simulation/logic/blob_manager.py:64-68 | after discovery and update, the ant's square is listed iff it still has food, and no other listing changes |
| BlobManagerModel.Cull | simulation/logic/blob_manager.py:75-84 | removing one ant leaves one ant fewer, all from the old list |
| BlobManagerModel.UnlistedDeadFails | simulation/logic/blob_manager.py:86-88 | removing a dead ant no longer in the list fails |
| BlobManagerModel.RemoveDeads | simulation/logic/blob_manager.py:86-88 | the removals of the last loop of move, failing on an ant no longer listed; UnlistedDeadFails and CulledDeadFails state when |
| BlobManagerModel.CulledDeadFails | simulation/logic/blob_manager.py:75-88 | a dead ant culled by the resize makes the later removal fail: two ants, the first dead and culled |
| BlobManagerModel.PickSpec | simulation/logic/blob_manager.py:86-88 | the ants kept are exactly those flagged, without duplicates |
| BlobManagerModel.Pick | simulation/logic/blob_manager.py:59-62 | the dead list as the flagged ants in order; PickSpec states what it holds |
| BlobManagerModel.ClearedListed | simulation/logic/blob_manager.py:139-147 | after removing a square, every listed food still has food on the board |
| BlobManagerModel.BlobManager.constructor | simulation/logic/blob_manager.py:28-49 | the manager seeds the food list from the board, sets the target size and creates that many ants |
| BlobManagerModel.BlobManager.SetTarget | simulation/logic/blob_manager.py:45 | the target size becomes the computed maximum |
| BlobManagerModel.BlobManager.SeedFood | simulation/logic/blob_manager.py:39-43 | the food list becomes the touched food squares of the board |
| BlobManagerModel.BlobManager.Populate | simulation/logic/blob_manager.py:46-47 | ants are added until the colony reaches the target size; the existing ants are kept |
| BlobManagerModel.BlobManager.ComputeMaxScouters | simulation/logic/blob_manager.py:108-115 | the method returns the target size for the board's total, cover and known food |
| BlobManagerModel.BlobManager.FoodDiscovered | simulation/logic/blob_manager.py:149-151 | the square is appended to the food list and the target size is unchanged |
| BlobManagerModel.BlobManager.FoodDestroyed | simulation/logic/blob_manager.py:158-159 | the square leaves the food list |
| BlobManagerModel.BlobManager.SpawnSquare | simulation/logic/blob_manager.py:92-102 | the spawn square is on the board: a known food when there is one, otherwise a weighted touched square |
| BlobManagerModel.BlobManager.Spawn | simulation/logic/blob_manager.py:92-102 | where add_scouter puts a new ant; SpawnSquare computes it and states that it is on the board |
| BlobManagerModel.BlobManager.AddScouter | simulation/logic/blob_manager.py:92-102 | below the target size a fresh ant is appended at the spawn square; otherwise nothing changes |
| BlobManagerModel.BlobManager.RemoveScouter | simulation/logic/blob_manager.py:104-106 | the ant at the drawn index is removed and the others keep their order |
| BlobManagerModel.BlobManager.MoveAnt | simulation/logic/blob_manager.py:59-63 | an ant is dead iff its move leaves it where it was; its store and state are unchanged |
| BlobManagerModel.BlobManager.Discover | simulation/logic/blob_manager.py:64-65 | a food square under the ant becomes listed and no other listing changes |
| BlobManagerModel.BlobManager.FeedAnt | simulation/logic/blob_manager.py:66-68 | after the update the ant's square is listed iff it has food, and only that square changes |
| BlobManagerModel.BlobManager.Settle | simulation/logic/blob_manager.py:64-68 | an ant that moved lists the food under it and updates; its square is kept and every other ant keeps its square, store and state |
| BlobManagerModel.BlobManager.StepAnt | simulation/logic/blob_manager.py:59-68 | a dead ant keeps its square, store and state, and the other ants are untouched |
| BlobManagerModel.BlobManager.Tick | simulation/logic/blob_manager.py:59-68 | the dead list holds exactly the ants that did not move, once each, and those ants keep their store and state |
| BlobManagerModel.BlobManager.Sweep | simulation/logic/blob_manager.py:59-68 | the per-ant loop keeps the dead list and the moved flags in step with the ants processed |
| BlobManagerModel.BlobManager.SweepStep | simulation/logic/blob_manager.py:59-68 | one more ant is processed |
| BlobManagerModel.BlobManager.RemoveAnt | simulation/logic/blob_manager.py:86-88 | the first occurrence of the ant is removed |
| BlobManagerModel.BlobManager.Shrink | simulation/logic/blob_manager.py:80-84 | the requested number of ants is removed and no ant is added |
| BlobManagerModel.BlobManager.Resize | simulation/logic/blob_manager.py:70-84 | the colony size becomes the new target; growth keeps the old ants in order |
| BlobManagerModel.BlobManager.Replace | simulation/logic/blob_manager.py:86-88 | every dead ant is replaced by a fresh one iff every dead ant is still listed; the size stays at the target |
| BlobManagerModel.BlobManager.ReplaceOne | simulation/logic/blob_manager.py:86-88 | one dead ant is removed and a fresh one added; the size stays at the target |
| BlobManagerModel.BlobManager.Move | simulation/logic/blob_manager.py:57-90 | after a tick the colony has exactly the target size, which is at least the minimum; the tick succeeds when the colony did not shrink, and then every old ant still present has moved |
| BlobManagerModel.BlobManager.Decay | simulation/logic/blob_manager.py:90 | every square becomes its decayed value under the configured decrease and food floor, the touched flags are kept, and the colony invariant survives |
| BlobManagerModel.BlobManager.Turnover | simulation/logic/blob_manager.py:70-90 | the resize and replacement keep the size at the target, and remove every dead ant when they succeed |
| BlobManagerModel.BlobManager.Reset | simulation/logic/blob_manager.py:139-147 | the ants on the square are removed, the square leaves the food list, and the target size drops by one for each listing removed |
| BlobManagerModel.BlobManager.ClearAnts | simulation/logic/blob_manager.py:140-142 | the ants standing on the square are removed and the others keep their order |
| BlobManagerModel.BlobManager.ClearAnt | simulation/logic/blob_manager.py:140-142 | one more ant is examined |
| BlobManagerModel.BlobManager.ClearFood | simulation/logic/blob_manager.py:144-147 | every listing of the square is removed and the target drops by their count |
| BlobManagerModel.BlobManager.ClearListing | simulation/logic/blob_manager.py:144-147 | one more listing is examined |
| LegacyManagerModel.Places | simulation/logic/main.py:74-76 | the squares of the ants, in order |
| LegacyManagerModel.AwayAnts | simulation/logic/main.py:74-76 | the ants kept are exactly the ants not standing on the square |
| LegacyManagerModel.Shortfall | simulation/logic/main.py:55-57 | replacing the dead keeps a colony at or below its target at the same gap, and brings an over-full colony no further above the target than before |
| LegacyManagerModel.BlobManager.constructor | simulation/logic/main.py:14-26 | the manager starts with no known food and `max_scouters` ants at (0, 0) |
| LegacyManagerModel.BlobManager.AddScouter | simulation/logic/main.py:59-71 | below the target a fresh ant is appended at a known food, or at (0, 0) when none is known; otherwise nothing changes |
| LegacyManagerModel.BlobManager.FoodDiscovered | simulation/logic/main.py:83-90 | the square is appended to the food list, the target grows by one, and a fresh ant is appended on the square |
| LegacyManagerModel.BlobManager.Step | simulation/logic/main.py:45-50 | an ant is dead iff it did not move; a moving ant drops its trail on its new square and nothing else changes |
| LegacyManagerModel.BlobManager.Discover | simulation/logic/main.py:52-53 | a new food square under the ant is listed, the target grows and an ant is added; otherwise nothing changes |
| LegacyManagerModel.BlobManager.Sweep | simulation/logic/main.py:44-53 | the loop keeps the gaps between the target and the food count and between the target and the colony size, lists each dead ant once, and an ant present at the start is listed dead iff it ended on its starting square |
| LegacyManagerModel.BlobManager.Turn | simulation/logic/main.py:45-53 | one more ant is processed: it joins the dead list iff it stayed on its square, and the unlisted food squares only decrease |
| LegacyManagerModel.BlobManager.TrackedTurn | simulation/logic/main.py:44-53 | one turn of the sweep: the agents the sweep started from that have had their turn are dead exactly when they stayed on their starting square, and the rest are still on theirs |
| LegacyManagerModel.BlobManager.RemoveAnt | simulation/logic/main.py:56 | the first occurrence of the ant is removed |
| LegacyManagerModel.BlobManager.ReplaceOne | simulation/logic/main.py:55-57 | the dead ant is removed and a new one is added when the colony is below its target |
| LegacyManagerModel.BlobManager.Replace | simulation/logic/main.py:55-57 | every dead ant is removed, every other ant stays, and the gap to the target follows the shortfall rule |
| LegacyManagerModel.BlobManager.Move | simulation/logic/main.py:42-57 | an ant present before the tick is still present afterwards iff it moved, so every ant that stayed is removed and every survivor moved; the food list only grows, by as much as the target; a non-negative gap between the target and the colony is kept and a negative one never widens |
| LegacyManagerModel.BlobManager.Reset | simulation/logic/main.py:73-81 | the ants on the square are removed, the square leaves the food list, and the target drops by one for each listing removed |
| LegacyManagerModel.BlobManager.ClearAnts | simulation/logic/main.py:74-76 | the ants standing on the square are removed and the others keep their order |
| LegacyManagerModel.BlobManager.ClearAnt | simulation/logic/main.py:74-76 | one more ant is examined |
| LegacyManagerModel.BlobManager.ClearFood | simulation/logic/main.py:78-81 | every listing of the square is removed and the target drops by their count |
| LegacyManagerModel.BlobManager.ClearListing | simulation/logic/main.py:78-81 | one more listing is examined |
| LegacyBoard.NewSquare | board.py:96-101 | a new square is untouched, with no food and zero intensity |
| LegacyBoard.UpdatedSquare | board.py:103-106 | an update marks the square touched and adds the change, clamped to [0, MAX_BLOB] |
| LegacyBoard.AgedCases | board.py:84-89 | a turn lowers a touched square's intensity by DECREASE, clamped at 0, and leaves untouched squares alone |
| LegacyBoard.LoadSaveSquare | board.py:108-119 | loading a saved square gives the square back, its intensity passed through the float format and parse |
| LegacyBoard.SaveSquare | board.py:108-109 | the text of one square; LoadSaveSquare states that loading it gives the square back |
| LegacyBoard.LoadSquare | board.py:111-119 | one square read from its text, failing on fewer than three fields; LoadSaveSquare states the round trip |
| LegacyBoard.Board.constructor | board.py:20-32 | a new board has the given size and every square is new |
| LegacyBoard.Board.QueriesOutside | board.py:59-82 | outside the board `has_food` and `is_touched` are false and `get_blob` is None |
| LegacyBoard.Board.UpdateBlob | board.py:62-67 | inside the board the square is updated and nothing else changes; outside nothing changes |
| LegacyBoard.Board.NextTurn | board.py:84-89 | every square ages by one turn |
| LegacyBoard.Board.Reset | board.py:91-93 | the square becomes a new square and nothing else changes |
| LegacyBoard.Board.Save | board.py:34-43 | the text is one line per row, each node a saved square followed by a space, each line ended by a newline |
| LegacyBoard.Board.RowNodes | board.py:38-40 | one row's nodes are written in order |
| LegacyBoard.Board.SaveRoundTrip | board.py:34-57 | splitting the saved text into lines and nodes, as `load` does, gives the board's height in lines of width nodes, and each node loads back to its square |
| PlayerModel.CleanHalves | player.py:84-97 | the two halves the cleaning alternates between cover every row, and overlap by one row on an odd height |
| PlayerModel.NoneIsBottom | player.py:41-50 | with no band requested the food is placed in the bottom band, as with `random_top` false |
| PlayerModel.BandSpec | player.py:41-50 | each band lies within the board and is non-empty; the top and bottom bands together cover every row |
| PlayerModel.Band | player.py:41-50 | the rows food is drawn from; BandSpec and NoneIsBottom state which |
| PlayerModel.Fed | player.py:60-74 | feeding a square keeps its intensity and touched flag, and puts food on it when it is untouched |
| PlayerModel.TouchedBound | player.py:76-82 | the touched count is at most the number of squares counted |
| PlayerModel.Share | player.py:76-82 | the touched share of the board lies in [0, 100] |
| PlayerModel.Player.constructor | player.py:26-33 | the player starts by cleaning the top |
| PlayerModel.Player.Save | player.py:35-36 | the saved flag is "1" iff the top is cleaned next |
| PlayerModel.Player.Load | player.py:38-39 | the flag is set iff the line read is "1" |
| PlayerModel.Player.SetFood | player.py:60-74 | every square of the given square area is fed and the others are unchanged; the result says whether the area had room |
| PlayerModel.Player.FeedColumn | player.py:64-68 | one column of the area is fed, and the result says whether it had an untouched square |
| PlayerModel.Player.SetRandomFood | player.py:41-58 | at most the requested number of foods is placed, each on a distinct untouched square without food in the requested band; no other square changes |
| PlayerModel.Player.PlaceFood | player.py:54-58 | a drawn square gets food only when it is untouched and has none |
| PlayerModel.Player.CheckBlobSize | player.py:76-82 | the result is the touched percentage of the board, in [0, 100] |
| PlayerModel.Player.CleanBoard | player.py:84-97 | the half being cleaned is reset, its ants and food listings are removed, and the half alternates |
| PlayerModel.Player.CleanColumn | player.py:92-95 | one column of the half is reset, with its ants and listings |
| PlayerModel.Player.CleanSquare | player.py:94-95 | one square is reset, with its ants and listings |
| LegacySensingModel.ScanSpec | blob/sensing_scouter.py:26-44 | the moves kept are exactly the on-board simple moves whose target intensity is the lowest seen |
| LegacySensingModel.Scan | blob/sensing_scouter.py:26-44 | the loop over the moves as a fold; ScanSpec states which moves it keeps |
| LegacySensingModel.SensingScouter.Move | blob/sensing_scouter.py:26-44 | the agent takes the drawn one of the kept moves, or stays when none is kept |
| LegacySensingModel.MoveSpec | blob/sensing_scouter.py:26-44 | a chosen move is a simple move onto the board whose target has the lowest intensity; some move is kept on a bounded board with an on-board neighbour, and none on a single square |
| LegacyGathererModel.CostBands | blob/gatherer.py:37-45 | the cost is 0 iff the square has no intensity, and otherwise lies between 1 and MAX_BLOB + 1, less for a stronger trail |
| LegacyGathererModel.Cost | blob/gatherer.py:37-45 | the cost of one square; CostBands states its range |
| LegacyGathererModel.GetMatrix | blob/gatherer.py:37-45 | the loops build the whole board's cost matrix |
| LegacyGathererModel.Costs | blob/gatherer.py:37-45 | the whole board's cost matrix, shaped like the board; GetMatrix computes it |
| LegacyGathererModel.InGridOn | blob/gatherer.py:47-59 | a square is in the search grid iff it is on the board |
| LegacyGathererModel.Goals | blob/gatherer.py:64-69 | the candidates are exactly the known foods other than the agent's square |
| LegacyGathererModel.ChoiceSpec | blob/gatherer.py:64-73 | no goal iff every known food is the agent's square; otherwise the goal is a known food other than it |
| LegacyGathererModel.Choice | blob/gatherer.py:64-73 | choose_goal for a draw; ChoiceSpec states what it returns |
| LegacyGathererModel.NextSpec | blob/gatherer.py:81-113 | a move keeps the agent and its path on the board, keeps a known food as goal, and without cached plans (or right after a re-plan) leaves the agent on its square, since an untrimmed path starts there |
| LegacyGathererModel.Next | blob/gatherer.py:81-113 | where one move takes a gatherer; NextSpec states its properties |
| LegacyGathererModel.AimedSpec | blob/gatherer.py:81-96 | before it steps, the agent is still on its square and on the board, any goal it holds is known food with a path to it, and a path whose head is another square can only be its kept path under light compute with a still-listed goal |
| LegacyGathererModel.Aimed | blob/gatherer.py:81-96 | the first half of a move: goal choice and search; AimedSpec states its properties |
| LegacyGathererModel.ArriveSpec | blob/gatherer.py:98-113 | the step lands on the head of the path, keeps the rest of the path on the board, and leaves a goal only if it is known food other than the new square |
| LegacyGathererModel.Arrive | blob/gatherer.py:98-113 | the second half of a move: the step and the goal update; ArriveSpec states its properties |
| LegacyGathererModel.Gatherer.constructor | blob/gatherer.py:28-35 | the agent stands at (x, y) with no goal or path |
| LegacyGathererModel.Gatherer.ChooseGoal | blob/gatherer.py:64-73 | the method returns the model's choice |
| LegacyGathererModel.Gatherer.BestWayTo | blob/gatherer.py:47-59 | the path becomes the search result over the board's cost matrix, not trimmed |
| LegacyGathererModel.Gatherer.Move | blob/gatherer.py:81-113 | the new position, goal and path are the model's move from the old state |
| LegacyGathererModel.Gatherer.Aim | blob/gatherer.py:82-96 | the goal and path after the goal and plan checks are the model's, and a goal is kept iff a path was found |
| LegacyGathererModel.Gatherer.Advance | blob/gatherer.py:98-113 | the agent steps onto the first path node and picks a new goal once the old one is reached or gone |
| LegacyGathererModel.Gatherer.Reset | blob/gatherer.py:75-79 | the agent goes back to (0, 0) with no goal and no path |
| ColorRange.ExtremesSpec | detection/food_colors.py:73-79 | the lowest and highest colours are component-wise bounds of every sample, each attained by some sample |
| ColorRange.RangeSpec | detection/food_colors.py:62-81 | every sample lies channel by channel between the two bounds, each bound is reached by some sample, and no sample gives ((0, 0, 0), (255, 255, 255)) |
| ColorRange.Range | detection/food_colors.py:62-81 | the colour range of the samples; RangeSpec states its bounds |
| ColorRange.Compute | detection/food_colors.py:62-81 | the loop computes the model's range |
| SetupInput.KeyByte | detection/food_colors.py:105 | the key code is reduced to its low byte, in [0, 255] |
| FoodColorsModel.Backspaced | detection/food_colors.py:109-110 | on a non-empty list backspace drops exactly the last colour; the empty list is left to the guard in `confirm` |
| FoodColorsModel.BackspaceUndoesAdd | detection/food_colors.py:33-42 | a backspace right after an add gives back the colours as they were |
| FoodColorsModel.FoodColors.constructor | detection/food_colors.py:25-31 | the helper starts with no colours and not done |
| FoodColorsModel.FoodColors.Add | detection/food_colors.py:33-42 | the clicked pixel's colour is appended |
| FoodColorsModel.FoodColors.Compute | detection/food_colors.py:62-81 | the result is the colour range of the collected colours |
| FoodColorsModel.FoodColors.ToJSON | detection/food_colors.py:83-87 | the record holds the computed range |
| FoodColorsModel.FoodColors.Clear | detection/food_colors.py:92-95 | the colour list is emptied |
| FoodColorsModel.FoodColors.OnMouse | detection/food_colors.py:97-99 | a left click adds the pixel's colour; other events change nothing |
| FoodColorsModel.FoodColors.Confirm | detection/food_colors.py:101-113 | Enter marks the helper done, backspace drops the last colour, and other keys change nothing |
| LimitsMakerModel.CollectSpec | detection/limits_maker.py:36-45 | clicks add corners until there are four and are ignored after that |
| LimitsMakerModel.LimitsMaker.constructor | detection/limits_maker.py:25-34 | the helper starts with no corner and not done |
| LimitsMakerModel.LimitsMaker.Compute | detection/limits_maker.py:61-62 | the result is the corner list |
| LimitsMakerModel.LimitsMaker.OnMouse | detection/limits_maker.py:71-74 | a left click adds a corner when there are fewer than four |
| LimitsMakerModel.LimitsMaker.Clear | detection/limits_maker.py:76-80 | the corners are dropped |
| LimitsMakerModel.LimitsMaker.Confirm | detection/limits_maker.py:82-94 | with four corners, Enter marks the helper done and any other key clears the corners |
| LimitsMakerModel.LimitsMaker.Draw | detection/limits_maker.py:47-56 | the key is handled only when four corners are there |
| SetupModel.BoardLimits.constructor | detection/setup.py:158-166 | the helper starts with no corner and not done |
| SetupModel.BoardLimits.Compute | detection/setup.py:188-189 | the result is the corner list |
| SetupModel.BoardLimits.OnMouse | detection/setup.py:204-207 | a left click adds a corner when there are fewer than four |
| SetupModel.BoardLimits.Clear | detection/setup.py:198-202 | the corners are dropped and the drawn flag is reset |
| SetupModel.BoardLimits.Confirm | detection/setup.py:209-217 | Enter, compared on the raw key code, marks the helper done and any other key clears the corners |
| SetupModel.BoardLimits.Draw | detection/setup.py:174-183 | with four corners, Enter marks the helper done and keeps the corners, and another key clears them; with fewer nothing changes |
| SetupModel.FoodColor.constructor | detection/setup.py:222-229 | the helper starts with no colour, not done, and the given scale and budget `max_qt` |
| SetupModel.FoodColor.Add | detection/setup.py:231-235 | the clicked pixel's colour is appended |
| SetupModel.FoodColor.OnMouse | detection/setup.py:283-285 | a left-button release appends the pixel's colour unless `enough_data` holds (the budget reached, or Enter read when there is no budget); with a budget the colours are the first clicks up to it |
| SetupModel.FoodColor.Compute | detection/setup.py:249-264 | the result is the colour range of the collected colours |
| SetupModel.FoodColor.Clear | detection/setup.py:278-281 | the colours are dropped and the helper is not done |
| SetupModel.FoodColor.Confirm | detection/setup.py:287-295 | the key code 13 marks the helper done and keeps the colours; every other key clears the colours and the done flag |
| SetupModel.FoodColor.Draw | detection/setup.py:237-247 | when `enough_data` holds (without a budget the probe key is 13, with one the budget is reached) the key confirms or restarts; otherwise nothing changes |
| SetupModel.ClickedSpec | detection/setup.py:242-247 | with a budget of n, successive clicks record exactly the first n clicked colours |
| SetupDetectionModel.FootPerpendicular | detection/setup_detection.py:156-163 | the vector from the projected point to the point is perpendicular to the line |
| SetupDetectionModel.FootCollinear | detection/setup_detection.py:156-163 | the foot of any point lies on the line through the two corners: its offset from v1 is parallel to v2 - v1 |
| SetupDetectionModel.FootOnLine | detection/setup_detection.py:156-163 | every point p on the line through the two corners (the cross product of v2 - v1 and p - v1 is zero) is its own foot, exactly, before truncation |
| SetupDetectionModel.ProjectOnLine | detection/setup_detection.py:156-163 | every lattice point on the line through the two corners projects onto itself |
| SetupDetectionModel.Foot | detection/setup_detection.py:156-163 | the foot of the perpendicular before truncation; FootPerpendicular, FootCollinear and FootOnLine state what it is |
| SetupDetectionModel.ProjectPoint | detection/setup_detection.py:156-163 | project_point with truncation; ProjectOnLine and ProjectEnds state what it fixes |
| SetupDetectionModel.ProjectEnds | detection/setup_detection.py:156-163 | each corner projects onto itself |
| SetupDetectionModel.BoardLimits.constructor | detection/setup_detection.py:99-111 | the helper starts with no corner, no middle point and not done |
| SetupDetectionModel.BoardLimits.Compute | detection/setup_detection.py:150-151 | the result is the pair of the corner list and the middle-point list |
| SetupDetectionModel.BoardLimits.OnMouse | detection/setup_detection.py:179-184 | while data is missing, a left-button release records the scaled point as a corner below four corners, and as a raw middle point after that; otherwise nothing changes |
| SetupDetectionModel.BoardLimits.Clear | detection/setup_detection.py:170-177 | the corners and the middle point are dropped |
| SetupDetectionModel.BoardLimits.Confirm | detection/setup_detection.py:186-194 | with enough data Enter marks the helper done and any other key clears it |
| SetupDetectionModel.BoardLimits.Draw | detection/setup_detection.py:125-145 | the key is handled only when enough data is there |

## Left out

- File and JSON I/O is not modelled. This covers `Board.load` and the board
  file, the manager's configuration and `save`/`load`, and `Blob_Manager.load`/`save`.
  For `Player.load` only the line read is modelled, and for the legacy board
  only the text `save` writes and the split `load` performs.
- Python's float-to-text formatting and parsing are parameters `fmt`/`parse`
  of the legacy board's save and load, so the round trip holds up to them.
- The A* search of the `pathfinding` library is a parameter. Only the finder
  contract is assumed of it, and nothing about optimality or about cost 0
  meaning a wall.
- Randomness (`random.randrange`, `random.random`, `random.choice`) enters
  as parameters: single draws, sequences of draws, or functions from an ant's
  index to its draws.
- Drawing, windows, OpenCV image handling and prints are not modelled. The
  detection helpers keep only their state. The remaining detection modules
  (utils, detect, detection, detector, food_limits, refine) are not part of
  this model.
- `simulation/logic/main.py` builds `FSMAnt` with five arguments, a call
  that does not match its constructor. Its agents are modelled as
  `DumbScouter.WithDrop` agents with the drop value `DROP_VALUE` (25).
- Both players index `board_array`, which only the legacy board has, so both
  are modelled over `LegacyBoard`. Their colony is `LegacyManagerModel`;
  `blob/main.py` is not part of this model.
- The path from a failing call to a precondition or an error value:
  - the sensing scouter reads `goal[0]` before its None test, so choosing a
    goal requires a board of more than one square;
  - the FSM ant removes an exhausted food from the list, so `Update`
    requires the square to be listed when its food runs out;
  - `set_food`, `remove_food` and `eat_food` (`simulation/board.py:75-101`)
    index the numpy arrays with no bounds test: a negative index wraps around
    to the far edge, and an index past the end raises. No caller passes
    either: both players test the bounds first, and the FSM ant uses its own
    square. The model requires an on-board square and does not model the
    wrap-around;
  - `project_point` divides by the edge length, so the two corners must differ;
  - `remove_scouter` draws from an empty range on an empty colony, so it
    requires an ant;
  - `food_destroyed` (`simulation/logic/blob_manager.py:158-159`) removes the
    square with `list.remove`, which raises on a square that is not listed, so
    `FoodDestroyed` requires a listed square;
  - `get_blob_total` (`simulation/board.py:134`) divides by the board's height
    and width, so `BlobTotal` requires a non-empty board;
  - `check_blob_size` (`player.py:82`, `simulation/player.py:66`) divides by
    the board's area, so `CheckBlobSize` requires a non-empty board;
  - `set_random_food` (`player.py:53-55`) calls `randrange` on the board's
    width, which raises ValueError on an empty board, so `SetRandomFood`
    requires a non-empty board whenever food is asked for.
- LegacyManagerModel.BlobManager.constructor: the model requires a non-empty
  board. `__init__` (`simulation/logic/main.py:14-26`) accepts an empty
  board and puts every agent on (0, 0), which is then off the board. The
  model keeps every agent on the board, so it does not model this case.
- GathererModel.Gatherer.Move: the gatherer's local goal comes from the
  corrected `max` entry (see Findings). The source's `min`
  (`simulation/logic/gatherer.py:109`) can give an off-window node. A
  negative index then wraps around in the path finder's grid, so the
  program heads for a different square. `SightGoalAsWritten` and
  `SightGoalLeavesWindow` state that behaviour; the move itself is not
  modelled over it.
- SimulationBoard.Board.Cover: on an empty board `get_cover`
  (`simulation/board.py:118-126`) does not raise. It divides a numpy integer
  by zero, which gives nan with a runtime warning. The model requires a
  non-empty board and does not model the nan result.
- BlobManagerModel.BlobManager.Move: the board after the turn is not stated
  square by square. `Decay` states the decay pass, but the intensities it
  starts from are those the ants' turns left, which `Move` does not name.
  The food list after the turn is only stated to name distinct squares with
  food.
- BlobManagerModel.BlobManager.Move: where the source's `list.remove` of a
  dead ant raises `ValueError` (the ant was culled by the resize), the model
  returns `ok = false`. `Replace` and `Turnover` also report this through
  `ok`.
- The gatherer's `t` that may be None is proved never to be None, so no
  precondition is needed.
- PlayerModel.Player.SetRandomFood: the source loops until it has placed the
  requested number of foods, which never ends on a full band. The model stops
  when its finite draws run out, so it places at most the requested number.
- BlobManagerModel.BlobManager.MoveAnt: a gatherer's redraw loop is given
  draws that eventually name another food (`Redraws`: the draws include 0
  and 1). With a random source this happens with probability 1; the model
  does not capture the non-terminating runs.
- A sensing scouter with `light_compute` off can re-plan to a goal outside
  its current window. The source then indexes the grid outside its range. In
  the model the finder contract absorbs this: the path ends at the goal only
  when the goal is in the grid.
- SimulationBoard.Board.CoverBottomBound: the bound is `100 * 2 * (h - h/2) / h`
  rather than 100, because on an odd height the doubled bottom half has one
  row more than half the board.
- BlobManagerModel.BlobManager.FoodDiscovered: it requires the condition its
  call site tests (the square has food and is not yet listed).
- `draw` in `detection/food_colors.py` only shows the image and then calls
  `confirm`, so it has no member of its own; `FoodColorsModel.FoodColors.Confirm`
  stands for both.
- Floating-point rounding is not modelled anywhere, including in
  `project_point`. All arithmetic on floats is exact real arithmetic.
- `setup_detection.py`'s `FoodColor` is the same code as `setup.py`'s and
  is modelled once, as `SetupModel.FoodColor`.

## Findings

| source | as written | input that shows it | evidently intended | confidence | as-written member | corrected member |
|---|---|---|---|---|---|---|
| simulation/board.py:150 | `compare` rejects the other board only when both its width and its height differ (`and`) | comparing a 2x2 board with a 2x1 board: the guard passes and the loop reads row 1 of the 2x1 board | reject when either dimension differs (`or`) | not executed | SimulationBoard.CompareAsWrittenReadsOutside | SimulationBoard.ComparableReadsInside |
| simulation/logic/gatherer.py:109 | the entry parameter is `min(t_x, t_y)`, the first crossing of an edge line, which may lie outside the window | 10x10 board with (3, 6) touched, agent at (5, 5), sightline 1, goal (0, 9): the window is [4, 7) x [4, 7), the crossings are 0.8 and 0.75, and the local goal becomes (-1, 2) | the crossing where the line actually enters the window (`max`), so the local goal is a square of the window | not executed | GathererModel.SightGoalLeavesWindow | GathererModel.SightGoalInGrid |
