# Smart parking allocation and usage heatmap, modelled in Dafny

This project models the two computational cores of a small smart-parking
repository.

- **The allocation agent** (`agent.py`) turns a list of cars and a list of
  parking slots into a cost matrix. There is one row per car and one column
  per slot. Each entry adds three terms:
  - the slot's distance, weighted;
  - a penalty when the car's size differs from the slot's size;
  - the slot's priority, weighted.

  The agent then assigns cars to slots. The model covers the pure-Python
  greedy fallback of `assign_hungarian`. It takes the rows in order and gives
  each row the cheapest column no earlier row has taken. It also keeps the
  running total of the chosen costs.
- **The usage heatmap** (`heatmap.py`) works in three parts:
  - It parses slot ids such as `A1` or `B3` into grid positions. The first
    character names the row and the digits that follow name the 1-based
    column.
  - It counts how often each slot id occurs among the allocation records.
  - It sizes a grid to the largest row and column and writes each slot's
    count into that slot's cell.

The repository also has route-planning code: Dijkstra's shortest paths, route
costs, and baseline and optimised collection routes. That code lives in the
Streamlit app `grabage collector/app_garbage.py`, outside the two files
modelled here, and is not part of this model.

Files:

- `wrappers.dfy` holds `Option` and `Result`. `Option` models a missing
  dictionary key and the "no best yet" start of a scan. `Result` models an
  exception.
- `agent.dfy` (module `Agent`) holds the cost matrix and the greedy
  assignment.
- `heatmap.dfy` (module `Heatmap`) holds slot-id parsing, the layout
  dictionary, counting and the grid.

How the model is built:

- **Greedy assignment.** The greedy algorithm is specified as a fold:
  - `CheapestUnused` is the scan over one row;
  - `Step` is one iteration of the outer loop;
  - `GreedyPrefix` and `Greedy` are the state after some rows and after all
    of them.

  The imperative method `AssignGreedy` has the source's nested loops, its
  `used` set and its running total. It is proved equal to that fold. The
  properties the source promises are lemmas about the fold, and the method
  restates them in its `ensures`.
- **Layout dictionary.** Python's dictionary is modelled as a `Layout`: the
  keys in insertion order, plus a map from each key to its position. The grid
  is filled in key order.
- **Distinct ids can share a cell.** For example, `A1` and `a1` name the same
  cell, and so do `A01` and `A1`. The last key written wins, and `CellValue`
  states which one that is.
- **Negative indices.** numpy counts negative indices from the end of an
  axis, and the grid fill does the same. A row is negative when an id starts
  with a character that sorts before `A`. A column is -1 for an id like `A0`.
- **Error paths.** Every path on which the source raises is a `Failure`:
  - an empty id;
  - no slots at all;
  - a negative grid dimension;
  - an index outside the grid.

## Model

| member | source | states |
|---|---|---|
| Agent.EntryCost | agent.py:39-48 | the cost of one car in one slot: the distance times the distance weight, plus the size penalty when the sizes differ, plus the priority times the priority weight, with a missing distance or priority read as 0. It is the specification `BuildCostMatrix` is proved against. |
| Agent.BuildCostMatrix | agent.py:28-52 | the matrix has one row per car, and each row has one entry per slot, in slot order. Entry (i, j) is the weighted distance, plus the size penalty when the two sizes differ, plus the weighted priority. Without weights the defaults 1, 1000 and -10 apply. |
| Agent.MissingFieldsCostZero | agent.py:39-48 | a slot record with no distance and no priority costs the same as one with both set to 0, which is only the size penalty or nothing. A missing size is a size of its own. |
| Agent.CheapestUnused | agent.py:73-80 | a column chosen by the scan is one of the columns scanned so far and is not used |
| Agent.CheapestUnusedIsCheapest | agent.py:73-80 | the scan keeps "no best yet" exactly when every column it saw is used. Otherwise it picks an unused column costing no more than any other unused column, and strictly less than every unused column before it, so ties go to the lowest index. |
| Agent.Step | agent.py:73-84 | one iteration of the outer loop: scan the row, and if a column was found, append the pair, mark the column used and add its cost to the total; otherwise leave the state unchanged |
| Agent.GreedyPrefix | agent.py:69-84 | the state after the first k rows: the empty state folded through `Step` row by row, in row order |
| Agent.Greedy | agent.py:68-85 | the state after every row; `AssignGreedy` is proved to return its pairs and total |
| Agent.GreedyColumnsDistinct | agent.py:76-83 | after any number of rows, the set of used slots is exactly the set of assigned columns, and no column is assigned twice |
| Agent.GreedyInside | agent.py:72-83 | every pair names a row already scanned and a column that row has |
| Agent.GreedyRowsIncreasing | agent.py:72-82 | the rows of the pairs are strictly increasing, so each car appears at most once, in car order |
| Agent.GreedyTotal | agent.py:71-85 | the running total equals the sum of the matrix entries at the chosen pairs |
| Agent.GreedyPicksCheapest | agent.py:75-80 | each pair's column is the cheapest among the columns unused when its row was scanned, the lowest such index on a tie |
| Agent.GreedySkipsOnlyExhaustedRows | agent.py:73-83 | a row receives a pair if and only if one of its columns was still unused when it was scanned |
| Agent.GreedyPrefixExtends | agent.py:72-83 | later rows only append pairs to those of earlier rows, and every appended pair belongs to a later row |
| Agent.GreedyFreeAtTurn | agent.py:73-83 | the columns free when row r is scanned are exactly the columns of row r that no returned pair for an earlier row takes |
| Agent.GreedyUsedCount | agent.py:81-83 | there are as many used columns as pairs, because each pick takes a fresh column |
| Agent.GreedyColumnsBelow | agent.py:75-83 | on a matrix whose rows all have n entries, every used column is below n |
| Agent.GreedyFreeColumn | agent.py:72-83 | on a matrix of width n, some column is still free exactly while fewer than n pairs have been made |
| Agent.GreedyPrefixCount | agent.py:72-85 | on a matrix of width n, the first k rows yield min(k, n) pairs |
| Agent.GreedyCount | agent.py:58-85 | on a rectangular matrix the greedy makes min(rows, columns) pairs. A matrix with no rows gives no pairs and total 0. |
| Agent.AssignGreedy | agent.py:68-85 | the loops return exactly the pairs and total of the greedy fold: distinct columns, rows increasing, every pair inside the matrix, total equal to the sum of the chosen entries, and each pick the cheapest unused column. A row is assigned iff some column of it is taken by no returned pair of an earlier row. The empty matrix gives ([], 0), and a rectangular one min(rows, columns) pairs. |
| Heatmap.Upper | heatmap.py:35 | lower-case ASCII letters move down by 32 code points, and every other character is unchanged |
| Heatmap.RowOf | heatmap.py:35 | the row lies in 0..25 exactly when the first character is an ASCII letter, and it is that letter's distance from `A` or `a` |
| Heatmap.Digits | heatmap.py:37 | the filtered string is no longer than its input and holds only digits |
| Heatmap.ColOf | heatmap.py:36-39 | the column is at least -1, and it is 0 when no digit follows the first character (the `int('')` fallback); otherwise it is the number the digits form, minus one |
| Heatmap.DigitsValue | heatmap.py:37 | the number a run of decimal digits denotes, read most significant digit first, as `int` reads it; `DecimalValue` proves it inverts `Decimal` |
| Heatmap.LeadingZero | heatmap.py:37 | a leading zero does not change the number, so `A01` and `A1` name the same column |
| Heatmap.PositionOf | heatmap.py:35-40 | the cell an id names: `RowOf` as the row and `ColOf` as the column, whose contracts bound both |
| Heatmap.DigitsAppend | heatmap.py:37 | filtering distributes over concatenation |
| Heatmap.PositionIgnoresNonDigits | heatmap.py:37 | inserting a non-digit anywhere after the first character does not change the position |
| Heatmap.Examples | heatmap.py:35-39 | `A1` is (0, 0), `B3` is (1, 2), `b3` is (1, 2), `C` is (2, 0) because a digit-free suffix gives column 0, and `A0` is (0, -1) |
| Heatmap.Decimal | heatmap.py:37 | the decimal numeral of a number is non-empty, all digits, and has no leading zero |
| Heatmap.DigitsOfDigits | heatmap.py:37 | filtering a string of digits leaves it unchanged |
| Heatmap.DecimalValue | heatmap.py:37 | reading the decimal numeral of n back gives n, so `int` inverts the numeral |
| Heatmap.SlotName | heatmap.py:35-37 | the canonical id of a cell is non-empty and starts with a capital letter |
| Heatmap.PositionOfSlotName | heatmap.py:35-40 | parsing the canonical id of any cell with a row below 26 gives that cell back |
| Heatmap.Dedup | heatmap.py:33-40 | the dictionary's keys are the ids of the input, each exactly once |
| Heatmap.FirstIndex | heatmap.py:33-40 | the index of the first occurrence of an id: it holds the id and no earlier index does |
| Heatmap.DedupFirstOccurrence | heatmap.py:33-40 | the dictionary's keys come in the order of their first occurrences in the input, as insertion into a dictionary keeps them |
| Heatmap.LayoutOf | heatmap.py:27-41 | the dictionary's keys are exactly the input's ids, each once and each non-empty. Each key maps to the position parsed from it, and the dictionary is empty exactly when the input is. |
| Heatmap.LayoutStep | heatmap.py:33-40 | one more slot appends its id to the keys unless it is already a key, and rewrites its entry with the position parsed from it |
| Heatmap.LayoutFromSlots | heatmap.py:27-41 | the loop raises exactly when some id is empty, and it reports the first one. Otherwise it builds the layout of the ids. |
| Heatmap.LoadCounts | heatmap.py:17-25 | an id has a counter entry exactly when it occurs in the records, and its count is the number of its occurrences, 0 for an unseen id |
| Heatmap.CountOf | heatmap.py:50 | the count of an id, and 0 for an id the counter never saw, as `counts.get(sid, 0)` |
| Heatmap.Extent | heatmap.py:46-47 | the extent is the largest row and the largest column over the mapped positions: each is reached by some key and bounds all of them |
| Heatmap.CellAt | heatmap.py:50 | a position that fits the grid writes to a cell inside it. A negative coordinate counts from the end of its axis, and a non-negative position writes to itself. |
| Heatmap.CellValue | heatmap.py:48-50 | the value of a cell once the keys have been written in order, starting from zeros: the count of the last key that writes to it, and 0 when none does |
| Heatmap.CellValueSnoc | heatmap.py:49-50 | writing one more key changes only its own cell |
| Heatmap.CellUnmapped | heatmap.py:48-50 | a cell that no key writes to stays 0 |
| Heatmap.CellOfSoleId | heatmap.py:49-50 | the cell of a key that shares it with no other key holds that key's count, 0 when the key was never counted |
| Heatmap.FillGrid | heatmap.py:48-50 | a fresh grid of the given shape is returned exactly when every position fits, and otherwise the first key that does not fit is reported. Each cell holds the count of the last key written to it, and 0 when there is none. |
| Heatmap.GridRows | heatmap.py:46-48 | the number of grid rows: one more than the largest row over the dictionary's positions |
| Heatmap.GridCols | heatmap.py:47-48 | the number of grid columns: one more than the largest column over the dictionary's positions, never negative |
| Heatmap.GridSize | heatmap.py:46-48 | every id's row is below the row count and its column below the column count, and some id reaches each bound |
| Heatmap.NonNegativeBounds | heatmap.py:46-48 | with no negative coordinates the grid has at least one row and one column, and every position lies inside it |
| Heatmap.NonNegativeIdsFit | heatmap.py:46-50 | with no negative coordinates every id fits the grid and writes to the cell its own position names |
| Heatmap.DrawHeatmap | heatmap.py:43-50 | the errors, in the source's order: an empty id, no slots, a row dimension below zero, then a position outside the grid, each raised exactly when it occurs. On success the grid is max row + 1 by max column + 1 and each cell holds the count of the last id mapped to it, or 0. |

## Left out

- The `scipy.optimize.linear_sum_assignment` branch of `assign_hungarian` (agent.py:22-26, 61-66) is a foreign library call on numpy arrays, so only the greedy fallback is modelled.
- `save_allocations`, `load_json` and `main` in agent.py are file I/O, argument parsing, the clock and printing. They are not modelled.
- energy.py and app.py, the Streamlit user interfaces, are not part of this model. This includes their linear program, random data, charts, reports and subprocess calls.
- The Matplotlib rendering in heatmap.py is omitted, and so are its image file and its command-line entry point. `DrawHeatmap` returns the grid instead of drawing it.
- The CSV reading in `load_counts` is omitted. `LoadCounts` takes the `slot_id` column as a sequence of strings.
- Slot records are reduced to their ids. A record without an `id` key, or with an id that is not a string, is not modelled.
- Car records are reduced to their size, and slot records to size, distance and priority. Ids play no part in the cost.
- Costs and weights are integers, not floats. The `float('inf')` that starts the scan is the absent value of `Option`. NaN and infinite costs do not arise.
- A caller-supplied weights dictionary must hold all three weights. A dictionary with a missing key raises `KeyError` in the source, and that case is not modelled.
- `upper()` and `isdigit()` are modelled on ASCII only. Non-ASCII behaviour is not modelled: non-ASCII upper-casing, Unicode digits that `int` rejects, and upper-cased forms longer than one character.
- The column dimension of the grid is always at least 0, because a column is at least -1. So only the row dimension can raise the negative-dimension error.
- `n_cols` at agent.py:59 is computed and never read: neither the scipy branch nor the greedy loop uses it. The greedy model accepts ragged rows, as the Python loop does, and states the min(rows, columns) count for rectangular matrices.
- The route-planning code of `grabage collector/app_garbage.py` and the traffic simulation under `Traffic controller/` are not part of this model.
- Heatmap.ColOf: the column is computed on unbounded integers. CPython 3.11 and later make `int()` reject a digit string longer than 4300 characters; the `except` at heatmap.py:38-39 then gives column 0, where the model gives the number minus one.
- Heatmap.DrawHeatmap: grid dimensions are unbounded. `np.zeros` raises when a dimension does not fit a 64-bit integer (an id with a 20-digit column, say) or when memory runs out; the model returns the grid there.
