# Sliding puzzle and Recamán sequence, modelled in Dafny

This project models two programs of a small collection of Python demo programs:

- **The sliding-tile puzzle engine** (`programs/PySlidingPuzzle.py`). This covers the game
  state of `SlidingPuzzleGame`: the row-major list of tiles, the cached empty position, the
  start time and the `solved` latch. It models how the layout is built (`_create_tiles`) and
  shuffled (`_shuffle_tiles`), the move rule (`_try_move`), the solved check (`_is_solved`)
  and the arrow-key table of `_on_key`. It also covers the in-memory part of
  `Leaderboard.record`: the size key, the appended entry, the stable sort by time and the cut
  to ten.
- **Recamán's sequence** (`programs/PyRecamansSequence.py`). This is the loop of
  `RecamansSequence.run` over `current` and `seen`. Here it collects the terms into a
  sequence instead of printing them.

Files:

- `wrappers.dfy`: `Option`, which stands for Python's `None`-or-value.
- `grid.dfy`: grid geometry. It covers the size range, cells, Manhattan distance, and the
  row-major index with its inverse `divmod`.
- `layout.dfy`:
  - tile layouts;
  - the identity layout and `CreateTiles`;
  - the solved check;
  - the movable tiles `[t for t in tiles if t is not None]`;
  - the refill loop of the shuffle and its invariant.
- `sliding_puzzle.dfy`: the game state.
  - `Puzzle` is the state as a value.
  - `Move` and `Slide` define the move rule on it.
  - `Play` runs a sequence of attempts.
  - The class `Game` holds the same state in mutable fields. Its methods (`Shuffle`,
    `IsSolved`, `TryMove`, `OnKey`, `RecordScore`) are the source's methods, each proved
    against the functions.
- `leaderboard.dfy`: the leaderboard transform, with the stable insertion sort that stands
  for Python's `sorted`.
- `recaman.dfy`: the Recamán rule as a function (`Term`), the loop as a method (`Run`), and
  what the rule guarantees.

Game invariant (`SlidingPuzzle.Invariant`), which every operation keeps:

- the tiles are a permutation of the identity layout, so there is exactly one hole;
- `emptyPos` is a cell of the grid, and its slot is the hole;
- a solved game has a running timer and a layout that passes the solved check.

Where this model and a plain-language description of the program could differ, the model
follows the code:

- **Starting hole.** The identity layout has its hole at the top-right cell `(0, cols-1)`,
  not the bottom-right (`programs/PySlidingPuzzle.py:85-89`).
- **Shuffle.** The shuffle is a random permutation of the non-empty tiles written back into
  the non-empty slots (`:91-99`). It is not a walk of legal moves, so nothing makes a
  shuffled layout solvable, and the model claims no solvability.
- **Leaderboard time.** The leaderboard stores the raw elapsed time with no rounding
  (`:209`).
- **Initials.** `record` itself cuts the initials to three characters (`:209`).
- **Number of terms.** Recamán's loop produces 1000 terms (`MAX_TERMS`, `:9`), not the 100
  its doc comment names (`programs/PyRecamansSequence.py:7`).

## Model

| member | source | states |
|---|---|---|
| Grid.CoordOf | programs/PySlidingPuzzle.py:187 | the cell of a slot index has a column in `0..cols-1` and a non-negative row, and its row-major index is the slot index again |
| Grid.CoordOfIsDivMod | programs/PySlidingPuzzle.py:187 | `CoordOf(idx, cols)` is `divmod(idx, cols)`: quotient and remainder by `cols` |
| Grid.SameIndexSameCell | programs/PySlidingPuzzle.py:170-171 | two cells whose columns are in range and whose indices `r * cols + c` agree are the same cell |
| Grid.IndexRoundTrip | programs/PySlidingPuzzle.py:160-171 | an in-bounds cell has an index in `0..rows*cols-1`, and `divmod` of that index gives the cell back |
| Grid.CoordRoundTrip | programs/PySlidingPuzzle.py:184-187 | every slot index below `rows*cols` names an in-bounds cell whose index is that slot index |
| Layout.CreateTiles | programs/PySlidingPuzzle.py:81-89 | the nested loops return `rows*cols` slots; slot `cols-1` is the only hole; every other slot `idx` holds the tile `divmod(idx, cols)`; the empty position is `(0, cols-1)`; the result is the identity layout |
| Layout.IdentityOneHole | programs/PySlidingPuzzle.py:81-89 | the identity layout holds the empty marker exactly once |
| Layout.IdentitySolved | programs/PySlidingPuzzle.py:183-189 | the identity layout passes the solved check |
| Layout.IdentityLacksHoleTile | programs/PySlidingPuzzle.py:85-88 | the identity layout never holds the tile labelled with the hole's cell `(0, cols-1)`: if the tile labelled `divmod(idx, cols)` occurs in it, `idx` is not the hole's slot |
| Layout.Identity | programs/PySlidingPuzzle.py:81-89 | definition of the starting layout: slot `cols-1` is the hole and every other slot `idx` holds the tile `divmod(idx, cols)`; `CreateTiles`, `IdentityOneHole`, `IdentitySolved` and `IdentityLacksHoleTile` state its properties |
| Layout.Solved | programs/PySlidingPuzzle.py:183-189 | definition of the solved check: every non-empty slot `idx` holds the tile `divmod(idx, cols)`; `Game.IsSolved` computes it, and `IdentitySolved` and `SlidingPuzzle.SolvedIffIdentity` state its properties |
| Layout.Movable | programs/PySlidingPuzzle.py:92 | definition of `[t for t in tiles if t is not None]`; `MovableHasNoHoles`, `RefillDone` and `ShuffleKeepsTiles` state its properties |
| Layout.MovableHasNoHoles | programs/PySlidingPuzzle.py:92 | the movable tiles contain no hole and are no more than the slots |
| Layout.RefillStart | programs/PySlidingPuzzle.py:92-95 | before the loop, with `i = 0`, the refill invariant holds for a shuffled list that is a permutation of the movable tiles |
| Layout.RefillStep | programs/PySlidingPuzzle.py:96-99 | one iteration keeps the refill invariant: a tile slot takes `movable[i]` and advances `i`, and a hole slot stays empty |
| Layout.RefillDone | programs/PySlidingPuzzle.py:96-99 | after the last slot, every hole is where it was and the non-empty slots hold the shuffled list in order |
| Layout.ShuffleKeepsTiles | programs/PySlidingPuzzle.py:91-99 | writing a permutation of the movable tiles back into the same non-empty slots keeps the multiset of the whole layout |
| SlidingPuzzle.Invariant | programs/PySlidingPuzzle.py:68-71 | definition of the game invariant: a valid grid size, tiles that are a permutation of the starting layout, `empty_pos` in the grid on the hole's slot, and a solved game that has a running timer and passes the solved check; `Move`, `SlideKeepsInvariant`, `Play` and the `Game` methods keep it, and `ExactlyOneHole` and `SolvedIffIdentity` draw on it |
| SlidingPuzzle.Accepts | programs/PySlidingPuzzle.py:155-165 | definition of the three acceptance rules of `_try_move`: not solved, target in the grid, target at Manhattan distance 1 from the hole; `Move` states that a rejected attempt changes nothing |
| SlidingPuzzle.Move | programs/PySlidingPuzzle.py:155-165 | a move keeps the game invariant; a move on a solved game, to a cell outside the grid, or to a cell not at Manhattan distance 1 from the hole changes nothing |
| SlidingPuzzle.Slide | programs/PySlidingPuzzle.py:167-181 | an accepted move starts the timer if needed, moves the target tile into the old hole, empties the target slot, leaves every other slot alone, moves the hole to the target and latches `solved` exactly when the new layout passes the solved check |
| SlidingPuzzle.SwapKeepsTiles | programs/PySlidingPuzzle.py:172-175 | swapping the hole with a tile keeps the multiset of slots |
| SlidingPuzzle.SlideKeepsInvariant | programs/PySlidingPuzzle.py:167-181 | an accepted move keeps the game invariant |
| SlidingPuzzle.Play | programs/PySlidingPuzzle.py:155-181 | any sequence of move attempts keeps the invariant and the grid size |
| SlidingPuzzle.SolvedIffIdentity | programs/PySlidingPuzzle.py:183-189 | under the invariant, the solved check holds exactly when the layout is the identity layout, and the hole is then at `(0, cols-1)` |
| SlidingPuzzle.ExactlyOneHole | programs/PySlidingPuzzle.py:163-176 | under the invariant, the slot at `empty_pos` is the only empty slot |
| SlidingPuzzle.MoveUndo | programs/PySlidingPuzzle.py:160-176 | after an accepted move that does not solve the puzzle, moving back to the previous hole is accepted and restores the layout and the hole |
| SlidingPuzzle.SolvedIsFinal | programs/PySlidingPuzzle.py:156-157 | once solved, no sequence of attempts changes anything |
| SlidingPuzzle.StartTimeKept | programs/PySlidingPuzzle.py:167-168 | once the timer runs, no sequence of attempts changes the start time |
| SlidingPuzzle.TimerUnsetMeansUnchanged | programs/PySlidingPuzzle.py:155-168 | if the timer is still unset after a sequence of attempts, all of them were rejected and the state is unchanged |
| SlidingPuzzle.TimerStartsOnFirstAcceptedMove | programs/PySlidingPuzzle.py:167-168 | if the timer runs after a sequence of attempts, it holds the clock reading of the first accepted attempt, and the attempts before that changed nothing |
| SlidingPuzzle.WitnessShift | programs/PySlidingPuzzle.py:156-165 | when the first attempt is rejected, the state after the first `k + 1` attempts equals the state after the `k` attempts that follow it, for every `k` |
| SlidingPuzzle.SolvedOnlyWhenSolvedLayout | programs/PySlidingPuzzle.py:180-192 | `solved` becomes true only with the identity layout, and while it is false at the end it was false after every prefix |
| SlidingPuzzle.KeyTarget | programs/PySlidingPuzzle.py:144-153 | exactly the four arrow names map to a target: Up to `(er+1, ec)`, Down to `(er-1, ec)`, Left to `(er, ec+1)`, Right to `(er, ec-1)`; each target is at Manhattan distance 1 from the hole |
| SlidingPuzzle.Game.constructor | programs/PySlidingPuzzle.py:50-72 | the new game satisfies the invariant, has the hole at `(0, cols-1)`, has the timer unset and is not solved; its holes are those of the identity layout and its non-empty slots hold the shuffled tiles in order |
| SlidingPuzzle.Game.Shuffle | programs/PySlidingPuzzle.py:91-99 | the loop keeps every hole in place and writes the shuffled list into the non-empty slots in order; the multiset of tiles and the other fields are unchanged |
| SlidingPuzzle.Game.IsSolved | programs/PySlidingPuzzle.py:183-189 | the scan with early return answers exactly the solved check |
| SlidingPuzzle.Game.TryMove | programs/PySlidingPuzzle.py:155-192 | the in-place update keeps the invariant and leaves the state `Move` gives; it reports whether this move solved the puzzle |
| SlidingPuzzle.Game.OnKey | programs/PySlidingPuzzle.py:144-153 | a key outside the table changes nothing; an arrow key performs the move to its target |
| SlidingPuzzle.Game.RecordScore | programs/PySlidingPuzzle.py:191-196 | with empty initials the leaderboard is unchanged; otherwise it gets `record` with the elapsed time `now - start_time` |
| Leaderboard.Decimal | programs/PySlidingPuzzle.py:203 | the decimal rendering of a number is non-empty and made of digits; `DecimalRoundTrip` states that the digits spell the number |
| Leaderboard.DecimalRoundTrip | programs/PySlidingPuzzle.py:203 | read back most significant digit first (`DecimalValue`), the rendering of `n` is `n` |
| Leaderboard.SizeKey | programs/PySlidingPuzzle.py:203 | definition of the key `f"{rows}x{cols}"`; `SizeKeyValue`, `SizeKeyOfValidSize` and `SizeKeyInjective` state its properties |
| Leaderboard.SizeKeyValue | programs/PySlidingPuzzle.py:203 | the key is the digits of `rows`, an `x` that is the first `x` in it, then the digits of `cols`; the text before the `x` spells `rows` and the text after it spells `cols` |
| Leaderboard.SizeKeyOfValidSize | programs/PySlidingPuzzle.py:203 | for a grid size the game allows (3 to 8 each way), the key is three characters: the digit of `rows`, `x`, the digit of `cols` |
| Leaderboard.DecimalInjective | programs/PySlidingPuzzle.py:203 | different numbers render differently |
| Leaderboard.SizeKeyInjective | programs/PySlidingPuzzle.py:203 | different grid sizes get different keys `"{rows}x{cols}"` |
| Leaderboard.Insert | programs/PySlidingPuzzle.py:210 | inserting adds exactly the new entry: the multiset grows by it and the length by one |
| Leaderboard.InsertSorted | programs/PySlidingPuzzle.py:210 | inserting into a list sorted by time keeps it sorted |
| Leaderboard.InsertStable | programs/PySlidingPuzzle.py:210 | inserting puts the new entry after every entry of equal time and keeps the order of each time's entries |
| Leaderboard.InsertBehindStable | programs/PySlidingPuzzle.py:210 | the step of that stability argument when the new entry goes behind the first one |
| Leaderboard.InsertFrontStable | programs/PySlidingPuzzle.py:210 | the step of that stability argument when the new entry goes in front |
| Leaderboard.SortByTime | programs/PySlidingPuzzle.py:210 | the sort yields a list sorted by time that is a permutation of its input |
| Leaderboard.SortStable | programs/PySlidingPuzzle.py:210 | the sort is stable: for every time, the entries of that time keep their input order |
| Leaderboard.TruncateSorted | programs/PySlidingPuzzle.py:210 | `sorted(...)[:n]` has `n` entries, the `n` fastest, in the sense `Fastest` defines |
| Leaderboard.CutKeepsFastest | programs/PySlidingPuzzle.py:210 | any stable sorted permutation, cut after `n` entries, is sorted, is drawn from the input, is no slower than what it drops, and keeps for each time the first entries of that time |
| Leaderboard.CutIsNoFaster | programs/PySlidingPuzzle.py:210 | in a sorted list, no entry after the cut is faster than an entry before it |
| Leaderboard.CutKeepsOrder | programs/PySlidingPuzzle.py:210 | before a cut, each time's entries are a prefix of that time's entries in the whole list |
| Leaderboard.Scores | programs/PySlidingPuzzle.py:208 | definition of `data.get(key, [])`; `Record` and `RecordOnEmpty` state what becomes of it |
| Leaderboard.NewEntry | programs/PySlidingPuzzle.py:209 | the stored initials are the first `min(len, 3)` characters of the given ones, and the time is stored as given |
| Leaderboard.Top | programs/PySlidingPuzzle.py:210 | `sorted(scores, key=time)[:10]` has `min(len, 10)` entries, which are the fastest ones, sorted, stable, and drawn from the input |
| Leaderboard.Record | programs/PySlidingPuzzle.py:202-211 | the keys become the old keys plus `"{rows}x{cols}"`; every other key's list is unchanged; that key gets the ten fastest of its old list plus the new entry |
| Leaderboard.TopKeepsAllWhileRoom | programs/PySlidingPuzzle.py:210 | a list of at most ten entries loses none of them |
| Leaderboard.RecordKeepsNewWhileRoom | programs/PySlidingPuzzle.py:208-211 | while a size has fewer than ten scores, the new score is kept |
| Leaderboard.RecordOnEmpty | programs/PySlidingPuzzle.py:203-211 | recording into an empty leaderboard gives exactly one entry under the size key |
| Recaman.After | programs/PyRecamansSequence.py:20-34 | definition of the loop state `(current, seen)` after step `n`; `SeenIsEarlierTerms` and `Run` state its properties |
| Recaman.Term | programs/PyRecamansSequence.py:20-34 | definition of a(n); `Recurrence`, `StepSize`, `Positive`, `SubtractionIsNew` and `Run` state its properties |
| Recaman.Step | programs/PyRecamansSequence.py:27-34 | a step adds or subtracts `n`, records the new term in `seen`, subtracts when the candidate is positive and unseen, and its subtraction results are positive and unseen |
| Recaman.PrefixGrows | programs/PyRecamansSequence.py:34 | the set of the first `n+1` terms is that of the first `n` plus a(n) |
| Recaman.SeenIsEarlierTerms | programs/PyRecamansSequence.py:20-34 | after step `n`, `seen` is exactly {a(0), ..., a(n)}; at step 0 it is {0} |
| Recaman.Recurrence | programs/PyRecamansSequence.py:26-32 | for n >= 1, a(n) = a(n-1) - n exactly when that is positive and not among a(0..n-1), and a(n-1) + n otherwise |
| Recaman.StepSize | programs/PyRecamansSequence.py:26-32 | for n >= 1, consecutive terms differ by exactly `n` |
| Recaman.Positive | programs/PyRecamansSequence.py:20-32 | a(0) = 0, and every later term is strictly positive |
| Recaman.SubtractionIsNew | programs/PyRecamansSequence.py:29-30 | a term reached by subtraction differs from every earlier term |
| Recaman.Run | programs/PyRecamansSequence.py:9-34 | the loop produces exactly MAX_TERMS = 1000 terms, and the n-th is a(n) |

## Left out

- User interface: the tkinter window, canvas and event binding, `_draw`, tile images, image
  loading and generation, and the setup dialog are rendering and windowing.
- Click handling: `_on_click` only converts pixels to a cell and is a UI helper.
- Grid size entry: the setup dialog's spin boxes (`programs/PySlidingPuzzle.py:254-255`)
  become the constructor's precondition `3 <= rows, cols <= 8`.
- Solved dialogs: the `simpledialog` and `messagebox` calls of `_on_solved` are dialogs.
  Only the rule "record only when initials were entered" is kept. A cancelled dialog
  (`None`) is treated like empty initials.
- Clock: `time.time()` becomes the caller-supplied natural number `now`.
  - `TryMove` takes one reading per move. The source reads the clock a second time in
    `_on_solved`, and `RecordScore` takes that reading as its own `now`.
  - Elapsed times are integers, not floats.
- Randomness: `random.shuffle` becomes the `shuffled` argument, any permutation of the
  movable tiles.
- Solvability: nothing in the code makes a shuffled layout solvable, so no solvability or
  parity property is stated.
- Leaderboard file: reading and writing the file, the JSON encoding and the existence check
  are file I/O through a foreign library. `Record` is the in-memory transform on the decoded
  mapping. A file that fails to parse raises in the source and is not modelled.
- Leaderboard.Record: takes the time as an integer. Python compares the float seconds and
  formats them with two decimals for display.
- Printing: the `print` calls of `RecamansSequence.run` are output. `Run` returns the terms
  instead.
- Menu and base class: `main.py`'s program discovery and menu, and `PyProgramBase.py`'s
  abstract `run`, are module loading and console I/O.
