# Rotting fruit and best-time-to-buy, modelled in Dafny

This project models two small sequential algorithms from the
repository's interview-preparation folder and proves what they compute.

- **Best time to buy and sell** (`interview_prep/buy_and_sell.c`,
  `maxProfit`). One pass over the prices keeps `min_buy`, the lowest
  price seen so far, and `max_pro`, the best profit found so far. Module
  `BuyAndSell` (`stock.dfy`) models it as the method `MaxProfit`, a loop
  with invariants over an `array<int>` and a size. The method is proved
  equal to `BestProfit`, a recurrence on the prefix of prices. That
  recurrence is proved to meet the closed form `IsMaxProfit`: the answer
  is at least 0, no buy-then-sell pair `i < j` earns more, and a positive
  answer is earned exactly by some pair.
- **Rotting fruit simulation** (`interview_prep/2B/rotting_fruit_visualization.py`,
  class `RottingFruitVisualizer`). A grid cell is 0 (empty), 1 (fresh) or
  2 (rotten). Every minute, each fresh cell that shares a side with a
  rotten cell turns rotten. The constructor copies the grid, queues the
  rotten cells and runs a multi-source, level-by-level breadth-first
  flood with two FIFO queues. It records one snapshot of the grid per
  minute that changed something. `get_time_to_rot_all` reads the final
  snapshot: it gives -1 if a fresh cell is left, and the number of
  minutes otherwise.
  - Module `RotSpread` (`rot_spread.dfy`) gives the meaning without
    queues. `Spread` is one synchronous minute. `Trace` repeats it until
    nothing changes. The lemmas there state what the source promises
    about the history.
  - Module `RottingFruit` (`rotting_fruit.dfy`) holds the class
    `Visualizer` with the source's fields.
    - `SimulateAllStates` mutates a fresh `array2<int>` in place, using
      sequences for the two queues.
    - It is proved to record exactly `Trace(originalGrid)`.
    - The proof rests on a frontier invariant: every fresh cell with a
      rotten neighbour shares a side with a queued cell.
  - Module `RottingFruitExamples` replays the source's example grids 1
    and 3 as concrete histories.

## Model

| member | source | states |
|---|---|---|
| `BuyAndSell.MaxProfit` | interview_prep/buy_and_sell.c:4-17 | Fewer than two prices give 0. Otherwise the result equals `BestProfit` of the first `pricesSize` prices. In every case it meets the closed form: at least 0, at least `prices[j] - prices[i]` for every `i < j`, and earned exactly by such a pair when positive |
| `BuyAndSell.Min` | interview_prep/buy_and_sell.c:9-11 | The running minimum of a non-empty prefix is one of its prices and is no larger than any of them |
| `BuyAndSell.BestProfit` | interview_prep/buy_and_sell.c:6-13 | The best profit is never negative: it starts at 0 and only ever grows |
| `BuyAndSell.BestProfitBoundsPairs` | interview_prep/buy_and_sell.c:8-15 | No buy-then-sell pair `i < j` earns more than `BestProfit` |
| `BuyAndSell.BestProfitIsEarned` | interview_prep/buy_and_sell.c:12-13 | A positive `BestProfit` equals `p[j] - p[i]` for some `i < j` |
| `BuyAndSell.BestProfitIsMaxProfit` | interview_prep/buy_and_sell.c:4-16 | `BestProfit` meets the closed form `IsMaxProfit`, so it is the maximum of 0 and every pair's profit |
| `BuyAndSell.MaxProfitUnique` | interview_prep/buy_and_sell.c:4-16 | The closed form fixes the answer: two values that both meet it are equal |
| `BuyAndSell.NewMinimumKeepsBestProfit` | interview_prep/buy_and_sell.c:9-13 | On a day whose price is a new minimum, every sale against an earlier day loses money. So skipping the profit check there leaves the best profit unchanged |
| `BuyAndSell.SampleDayPrices` | interview_prep/buy_and_sell.c:4-17 | The prices 7, 1, 5, 3, 6, 4 give a best profit of 5 |
| `RotSpread.Spread` | interview_prep/2B/rotting_fruit_visualization.py:101-112 | One minute keeps the grid's shape and changes a cell only from fresh to rotten |
| `RotSpread.SpreadShrinksFresh` | interview_prep/2B/rotting_fruit_visualization.py:110-116 | A minute that changes the grid strictly shrinks the set of fresh cells and strictly grows the set of rotten cells |
| `RotSpread.SpreadFixpoint` | interview_prep/2B/rotting_fruit_visualization.py:96-117 | A minute changes nothing exactly when no fresh cell has a rotten right, down, left or up neighbour |
| `RotSpread.SpreadKeepsKinds` | interview_prep/2B/rotting_fruit_visualization.py:110-111 | After one minute, the empty cells, the fresh-or-rotten cells, and the cells of every other value are the same sets as before |
| `RotSpread.Trace` | interview_prep/2B/rotting_fruit_visualization.py:85-86 | The history is never empty, and its first state is the original grid unchanged |
| `RotSpread.TraceStep` | interview_prep/2B/rotting_fruit_visualization.py:96-117 | Each recorded state is exactly one minute after the previous one and differs from it |
| `RotSpread.TraceEndsAtFixpoint` | interview_prep/2B/rotting_fruit_visualization.py:96-117 | The last state is a fixpoint of one minute: no fresh cell in it shares a side with a rotten cell |
| `RotSpread.TraceLengthBound` | interview_prep/2B/rotting_fruit_visualization.py:96-117 | The history holds at most (number of initially fresh cells + 1) states |
| `RotSpread.TraceKeepsShape` | interview_prep/2B/rotting_fruit_visualization.py:85-116 | Every recorded state has the original grid's rows and columns |
| `RotSpread.ConsecutiveStates` | interview_prep/2B/rotting_fruit_visualization.py:110-116 | Between consecutive states the only change is fresh to rotten. The set of rotten cells, and so their count, strictly grows |
| `RotSpread.TraceKeepsKinds` | interview_prep/2B/rotting_fruit_visualization.py:110-111 | In every state, the empty cells, the fresh-or-rotten cells and the cells of any other value are those of the original grid. So the empty count and the fresh-plus-rotten total are constant |
| `RotSpread.FreshOnlyShrinks` | interview_prep/2B/rotting_fruit_visualization.py:110-111 | A cell fresh in a later state was fresh in every earlier state |
| `RotSpread.NoFreshOnlyAtEnd` | interview_prep/2B/rotting_fruit_visualization.py:115-116 | Every state before the last still holds a fresh cell |
| `RotSpread.HistoryFreshFacts` | interview_prep/2B/rotting_fruit_visualization.py:278-285 | Every state but the last holds a fresh cell, and the fresh cells of the last state were fresh all along |
| `RotSpread.NewRottenNeighbour` | interview_prep/2B/rotting_fruit_visualization.py:109-112 | If a fresh cell stays fresh over a minute, any rotten neighbour it has afterwards was fresh before that minute |
| `RotSpread.RotComesFromFrontier` | interview_prep/2B/rotting_fruit_visualization.py:101-112 | A cell that rots in a minute shares a side with a cell of that minute's frontier. The frontier is the initially rotten cells in the first minute, and the cells that rotted in the previous minute after that |
| `RottingFruit.CollectRotten` | interview_prep/2B/rotting_fruit_visualization.py:89-93 | The result lists exactly the rotten cells of the grid, each once, in strictly increasing row-major order |
| `RottingFruit.AllDirectionsReachAdjacent` | interview_prep/2B/rotting_fruit_visualization.py:61 | The four directions right, down, left and up reach exactly the cells that share a side with a cell |
| `RottingFruit.SpreadFrom` | interview_prep/2B/rotting_fruit_visualization.py:104-112 | Spreading from one dequeued cell rots exactly its fresh in-bounds neighbours and leaves every other cell alone. It appends exactly those neighbours to the next queue, after the cells already there |
| `RottingFruit.RotFrontier` | interview_prep/2B/rotting_fruit_visualization.py:98-113 | Emptying the queue rots exactly the fresh cells next to a queued cell. The next queue holds exactly the cells that went from fresh to rotten |
| `RottingFruit.RottenListingIsFrontier` | interview_prep/2B/rotting_fruit_visualization.py:89-93 | The initial queue of all rotten cells is a valid frontier |
| `RottingFruit.FrontierRoundIsSpread` | interview_prep/2B/rotting_fruit_visualization.py:101-113 | A round of the queue loop from a valid frontier produces exactly one minute of `Spread` |
| `RottingFruit.FrontierAdvances` | interview_prep/2B/rotting_fruit_visualization.py:112-117 | The cells that rotted in a minute form a valid frontier for the next minute |
| `RottingFruit.EmptyFrontierMeansFixpoint` | interview_prep/2B/rotting_fruit_visualization.py:115-117 | The next queue is empty exactly when the minute changed nothing |
| `RottingFruit.RecordedStatesAdvance` | interview_prep/2B/rotting_fruit_visualization.py:115-116 | Appending the snapshot of a minute that changed the grid keeps the recorded states a prefix of the history |
| `RottingFruit.RecordedStatesComplete` | interview_prep/2B/rotting_fruit_visualization.py:96-119 | Once the queue is empty, the recorded states are the whole history |
| `RottingFruit.Visualizer.constructor` | interview_prep/2B/rotting_fruit_visualization.py:54-68 | After construction, the grid is its own copy and the directions are right, down, left, up. The queue lists the rotten cells in row-major order with minute 0. The states are the history, and `maxMinutes` is its length minus one |
| `RottingFruit.Visualizer.InitializeRottenQueue` | interview_prep/2B/rotting_fruit_visualization.py:70-76 | The queue holds exactly the rotten cells in row-major order, each tagged with minute 0 |
| `RottingFruit.Visualizer.SimulateAllStates` | interview_prep/2B/rotting_fruit_visualization.py:78-119 | The in-place flood records exactly the history `Trace(originalGrid)`, and its first state is the original grid |
| `RottingFruit.Visualizer.TimeToRotAll` | interview_prep/2B/rotting_fruit_visualization.py:271-285 | An empty history gives 0. After construction the result is -1 exactly when the final state holds a fresh cell; those cells were fresh in every state. Otherwise the result equals `maxMinutes`, is the first minute with no fresh cell, and is at most the initial fresh count |
| `RottingFruit.Visualizer.HistoryNeverEmpty` | interview_prep/2B/rotting_fruit_visualization.py:278-279 | After construction the history holds at least the original grid, so the empty-history branch is never taken |
| `RottingFruitExamples.CornerHistory` | interview_prep/2B/rotting_fruit_visualization.py:316-325 | On example 1 the history has five states, and the last one has no fresh cell |
| `RottingFruitExamples.CornerTimeToRot` | interview_prep/2B/rotting_fruit_visualization.py:316-325 | A visualizer built on example 1 reports 4 minutes |
| `RottingFruitExamples.BlockedHistory` | interview_prep/2B/rotting_fruit_visualization.py:342-351 | On example 3 rot spreads along the top row for two minutes and stops; the bottom row stays fresh |
| `RottingFruitExamples.BlockedTimeToRot` | interview_prep/2B/rotting_fruit_visualization.py:342-351 | A visualizer built on example 3 reports -1: not every fruit can rot |

## Left out

- `BuyAndSell.MaxProfit`: uses unbounded integers. It does not model C's 32-bit `int` overflow in `prices[i] - min_buy` or in the result.
- `BuyAndSell.MaxProfit`: the C source initialises `min_buy` to `INFINITY`, a float-to-`int` conversion whose result C leaves undefined. The model starts `minBuy` at `prices[0] + 1`. That value, like the intended "larger than every price", makes the first comparison take the new-minimum branch.
- `RottingFruit.Visualizer.constructor`: requires a rectangular grid with at least one row. For a ragged or empty list, the source fails while building the array or unpacking its shape. That failure is not modelled.
- The visualizer's plotting is user interface and is not modelled. This covers `create_visualization`, `update_frame`, `create_step_by_step_visualization`, the colour map, the norm and the legend.
- `print_simulation_summary`, the `example_visualization_*` drivers and the interactive menu are console I/O. Examples 1 and 3 appear only as concrete lemmas.
- The float `speed` and the animation interval computed from it are not modelled; they only pace the animation.
- The fields `time_states` and `minute` are never read by the simulation and are not modelled. The simulation's own local `minute` counter is kept but never read.
- The stored grids are sequence values, not numpy arrays. Only the simulation's working copy is a mutable `array2`, so aliasing between numpy copies is not modelled.
- Python's deques are modelled as sequences: `popleft` is `queue[1..]` and `append` is `+ [x]`.
- The byte-buffer analysis under `Part 1` (vowel counting, histograms, the similarity search, the sparse sampler and the two-process split) is not part of this model. The same goes for the standalone `Part 2` solutions and their test drivers.
