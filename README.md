# Queens region puzzle — a verified Dafny model

The program solves the LinkedIn-style "Queens" puzzle. Its input is an n×n grid whose cells carry region labels `A`..`Z`. A solution places one queen per row so that:
- no column holds two queens;
- no region holds two queens;
- no two queens touch, diagonals included.

This project models the puzzle core of the repository:
- `src/core.py`: reading and validating a board, and the placement rule;
- `src/solver.py`: the brute-force depth-first search over all n^n row-to-column assignments, and the text rendering of a solution;
- the Tk-independent helpers of `src/gui.py`: the progress cadence, the label colouring, and the region-count and region-contiguity check with its flood fill.

Modules follow the source files:

- `wrappers.dfy`, module `Wrappers`: `Option` and `Result`. A raised `ValueError` becomes `Failure`. `validateBoard` and `validate_board_or_raise` return nothing, so for them a raise becomes `Some(error)` and a normal return becomes `None`.
- `core.dfy`, module `Core`:
  - `boardParser`, `validateBoard` and `diffAreas`, each a loop method proved equal to a functional specification (`Parse`, `ValidationError`, `Labels`), with lemmas characterising those specifications;
  - `isValidMove` as a method proved equivalent to the predicate `ValidPlacement`.
- `solver.dfy`, module `Solver`:
  - `boardFormat` as a loop method;
  - `solve` as a method over a class `Search`. The class holds the state `dfs` shares through its closure: the `cols` buffer (an `array` rewritten in place) and the counter `iterations` and the recorded `solution`.
  - `Dfs` is proved against an enumeration specification `Ext`: the completions of the current prefix, in the order the recursion visits them.
  - Lemmas show that this order is all n^n assignments in strictly increasing lexicographic order, the i-th of rank i. The first legal one is therefore the lexicographically smallest legal assignment, and `iterations` is its rank plus one, or n^n when there is none.
- `gui.dfy`, module `Gui`:
  - `choose_update` and `build_color_map` as functions: pure code in the source;
  - `validate_board_or_raise`, the `pos_by_letter` fill and the `is_connected` stack/visited flood fill as methods, proved against a path-based definition of 4-connectedness.

Input and output are parameters. `boardParser` takes the file's lines instead of its path, and `solve` takes the same lines.

## Model

| member | source | states |
|---|---|---|
| Core.StripSpec | src/core.py:12 | `strip()` yields a contiguous slice of the line that starts and ends with a non-space, only whitespace is cut on either side, and it is empty iff the line is all whitespace (Python's `isspace` set) |
| Core.BlankLine | src/core.py:12-13 | a line is dropped by `if ln:` exactly when it consists of whitespace only |
| Core.NormalizedLinesOrder | src/core.py:10-14 | the parsed lines are the stripped, upper-cased non-blank file lines in file order (strictly increasing positions), and a file line is kept iff it is not blank |
| Core.NormalizedLinesEmpty | src/core.py:16-17 | "Empty file" is raised exactly when every character of every line is whitespace |
| Core.ReadLines | src/core.py:10-14 | the reading loop builds exactly the normalised non-blank lines |
| Core.WrongRowsSpec | src/core.py:20-22 | the wrong-row list is empty iff all rows have length n; otherwise it lists every wrong row once, with its true length, by increasing row |
| Core.FindWrongRows | src/core.py:21 | the loop computes exactly that wrong-row list |
| Core.DiffAreas | src/core.py:46-51 | the set filled by the nested loops is exactly the set of labels of the n×n cells |
| Core.FirstBadCell | src/core.py:35-39 | finds the first non-label cell in row-major order, all cells before it being labels; None iff every cell is a label |
| Core.ValidationErrorSpec | src/core.py:28-43 | `validateBoard` returns normally iff the board is well formed (n > 0, n rows of n cells, all uppercase letters, exactly n labels); each error names the first failing check in source order, with the offending cell or the found label set; the error is `BadCell` iff n > 0, the area is square and some cell is not a label, and `WrongLabelCount` iff all cells are labels but their number is not n |
| Core.ValidateBoard | src/core.py:28-43 | the checking loops return exactly the error `ValidationError` specifies |
| Core.ParseSpec | src/core.py:5-26 | "Empty file" iff no line survives; the square check reports every wrong row; the error is `NotSquare` iff the lines are non-empty and some row's length differs from their number; on square lines the parser fails exactly when `validateBoard` does, with its error; success iff the lines are non-empty and form a well-formed board, returning n = number of lines and the lines |
| Core.ParseBoard | src/core.py:5-26 | the parser method returns exactly `Parse` of the lines |
| Core.ColumnsOk | src/core.py:56-64 | true iff there are n columns, all in range(n), pairwise distinct |
| Core.RegionsOk | src/core.py:66-73 | true iff the regions of the n chosen cells are pairwise distinct |
| Core.NoneTouching | src/core.py:75-80 | true iff no pair of rows r1 < r2 has both row and column distance at most 1 |
| Core.IsValidMove | src/core.py:55-82 | true iff the assignment satisfies the placement rule `ValidPlacement` (length, range, distinct columns, distinct regions, no touching) |
| Core.TouchingOnlyInConsecutiveRows | src/core.py:75-80 | for any n columns, the all-pairs touching test is equivalent to testing consecutive rows only |
| Core.LegalPlacementCoversEverything | src/core.py:55-82 | on a well-formed board a legal placement uses every column and puts a queen in every region |
| Solver.BoardFormat | src/solver.py:9-16 | each output row is the board row with only the chosen cell (Python index, negatives counted from the end) replaced by `#` |
| Solver.OverlaidUnique | src/solver.py:9-16 | the rendering is determined by the board and the assignment |
| Solver.OverlaidRestores | src/solver.py:9-16 | putting the label back at the marker recovers the board row |
| Solver.ExtSplit | src/solver.py:45-49 | the completions checked by `dfs(row)` are those before column c followed by those from column c on |
| Solver.ExtLength | src/solver.py:45-51 | `dfs(row)` checks n^(n-row) complete assignments |
| Solver.ExtMembers | src/solver.py:45-49 | every assignment `dfs(row)` checks extends the current prefix with columns in range(n) |
| Solver.ExtComplete | src/solver.py:45-49 | every complete extension of the prefix is checked |
| Solver.ExtRank | src/solver.py:45-49 | the i-th assignment checked has rank Rank(prefix)·n^(n-row) + i in base n |
| Solver.ExtSorted | src/solver.py:45-49 | the assignments are checked in strictly increasing lexicographic order |
| Solver.EnumerationSpec | src/solver.py:29-53 | `dfs(0)` checks n^n assignments, exactly the complete ones, strictly lexicographically increasing, the i-th of rank i |
| Solver.FirstValid | src/solver.py:40-42 | the first position whose assignment `isValidMove` accepts, with nothing accepted before it |
| Solver.FirstValidAppend | src/solver.py:45-49 | searching a concatenation finds the first hit of the first part, or continues into the second |
| Solver.FirstValidIsLexSmallest | src/solver.py:29-53 | a hit exists iff some complete assignment is legal; it is legal, has rank equal to its position, and no lexicographically smaller assignment is legal |
| Solver.Search.constructor | src/solver.py:22-25 | `iterations = 0`, `solution = None`, `cols = [-1] * n` |
| Solver.Search.Dfs | src/solver.py:29-51 | `dfs(row)` returns True iff some completion of `cols[..row]` is legal; it adds the number of completions checked up to the first legal one, or all of them, to `iterations`; it records that completion in `solution` and leaves it in `cols`; when none is legal it keeps `cols[..row]`, resets `cols[row..]` to -1 and leaves `solution` |
| Solver.FoundAt | src/solver.py:45-49 | when the recursive call at column c succeeds after every earlier column failed, its hit is the first legal completion of the prefix, at offset (completions before c) + (its own offset) |
| Solver.NoneUpTo | src/solver.py:45-49 | when the recursive call at column c fails after every earlier column failed, no completion before column c + 1 is legal, and the count grows by that call's completions |
| Solver.Solve | src/solver.py:19-66 | parse errors propagate unchanged; otherwise `found` iff a legal assignment exists, `cols` is the lexicographically smallest legal assignment, `iterations` is its rank + 1 (n^n when none), and `solved` is its rendering; `cols` and `solved` are None when nothing is found |
| Solver.OutcomeMeaning | src/solver.py:29-66 | for any result that is the enumeration's first legal hit: `found` iff a legal assignment exists, the hit is the lexicographically smallest legal assignment, `iterations` is its rank + 1, and n^n when nothing is found |
| Gui.ChooseUpdate | src/gui.py:53-73 | the cadence is always strictly positive |
| Gui.ChooseUpdateTable | src/gui.py:56-73 | mode "fact": 1000/5000/20000/50000/100000 for n ≤ 10/14/18/22/above; any other mode: 10000/1000000/500000/1000000 for n ≤ 7/10/14/above |
| Gui.ChooseUpdateClamp | src/gui.py:54 | a negative n is treated as 0 |
| Gui.ChooseUpdateFactMonotone | src/gui.py:56-65 | in mode "fact" the cadence never decreases as n grows |
| Gui.PaletteDistinct | src/gui.py:38-45 | the palette has 26 pairwise different colours |
| Gui.SortDistinctSpec | src/gui.py:49 | `sorted(set(...))` is strictly increasing with exactly the input's characters |
| Gui.SortedLettersSpec | src/gui.py:49 | the sorted letters are exactly the board's characters, strictly increasing, and on a square board exactly its labels |
| Gui.BuildColorMap | src/gui.py:48-50 | the keys are exactly the board's letters, and the i-th letter in sorted order maps to palette entry i mod 26 |
| Gui.ColorsDistinct | src/gui.py:38-50 | with at most 26 letters no two letters share a colour |
| Gui.AdjacentIsStep | src/gui.py:320 | the four moves (1,0), (-1,0), (0,1), (0,-1) reach exactly the side-adjacent cells |
| Gui.ConnectedFromOne | src/gui.py:310-326 | a region is 4-connected iff every cell is reachable inside it from one given cell |
| Gui.Expand | src/gui.py:320-324 | one pass over the four moves visits and pushes each unvisited in-region neighbour once, after which all in-region neighbours of the popped cell are visited |
| Gui.Visit | src/gui.py:322-324 | marking and pushing an unvisited in-region neighbour keeps every stacked cell visited, the stack free of repeats, and a walk from the first cell to every visited cell |
| Gui.FloodFillResult | src/gui.py:326 | once the stack is empty, `len(visited) == len(cell_set)` holds iff every cell is reachable from the first, iff the cells are 4-connected |
| Gui.IsConnected | src/gui.py:310-326 | the flood fill returns True iff the cell list is non-empty and every cell is 4-reachable inside the list from the first, i.e. iff the cells form one connected piece; that visited stays inside `cell_set` and the stack never holds a cell twice are loop invariants, with termination by `|cellSet - visited|` |
| Gui.CellsOfSpec | src/gui.py:304-308 | the list built for a label holds exactly the cells with that label, in strictly increasing row-major order, and as a set is the label's region |
| Gui.PositionsPartition | src/gui.py:304-308 | every cell is in its own label's list and in no other |
| Gui.PositionsByLetter | src/gui.py:304-308 | the nested loops give every found letter its row-major cell list, and no other keys |
| Gui.FillRow | src/gui.py:307-308 | the inner loop appends to each letter's list exactly that letter's cells of row r, left to right, and changes no keys |
| Gui.LetterConnected | src/gui.py:310-326 | `is_connected(letter)` is True iff the letter's region is 4-connected |
| Gui.CheckLetters | src/gui.py:328-332 | the loop over the sorted letters finishes iff every letter's region is 4-connected |
| Gui.EveryLetterChecked | src/gui.py:299-332 | checking the sorted letters one by one checks exactly the board's labels |
| Gui.ValidateBoardOrRaise | src/gui.py:297-332 | raises the region-count error iff the number of distinct labels is not n; otherwise raises "not contiguous" iff some label's region is not 4-connected, and returns normally iff all are |

## Left out

- File access: `Path.exists`, `read_text` and `splitlines` in `boardParser` (src/core.py:6-11). The model starts from the file's lines, so the "File not found" error does not arise.
- Writing files: `saveSolution` (src/core.py:84-85) and `save_solution_txt` (src/gui.py:76-94). These are file output only.
- Solver.Solve: does not model `time_ms` or `perf_counter`. These are wall-clock floats.
- Solver.Solve: does not model the live-update `print` or the `update` parameter. `update` is used only to decide when to print.
- Solver.BoardFormat: requires that `cols` has one entry per board row, each a valid Python index into its row. The `IndexError` the source raises otherwise is not modelled. `solve` calls it only on a legal solution (src/solver.py:56), which meets this.
- `run_cli` (src/solver.py:68-92): interactive console input and output only.
- Everything Tk, PIL and threading in src/gui.py: drawing, PNG export, widgets, mode buttons and the worker thread. It is presentation and concurrency.
- The `mode=` and `on_progress=` keywords that src/gui.py passes to `solve`: `solve` has no such parameters, and no second strategy or progress protocol exists in the code.
- Core.IsLabel: `isalpha()` and `isupper()` are restricted to ASCII `A`..`Z`. Likewise, Core.UpperChar's `upper()` maps only `a`..`z`. Non-ASCII letters and case mappings that change length are not modelled. `strip()` does use Python's full whitespace set.
- Core.ValidateBoard: the test `len(cell) != 1` is not modelled. Cells are single characters here, as they are in the source, where `area` is built with `list(row)`.
- Core.ParseBoard: the board's rows are kept as strings rather than as lists of one-character strings. The two carry the same content.
- Errors are datatype values carrying the data the source puts in its messages, not the message texts.
- Gui.ValidateBoardOrRaise requires a square board. The source calls it only on `boardParser` output, which is square. Under that requirement the letters of whole rows are exactly the labels of the n×n cells.
- Gui.LetterConnected looks the letter up directly instead of through `pos_by_letter.get(letter, [])`. Every letter being checked is a key. The empty-list branch is kept in `Gui.IsConnected`, which returns False on an empty list.
