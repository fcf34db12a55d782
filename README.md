# Minesweeper board logic, modelled in Dafny

This project models the board logic of a browser Minesweeper game. The game
exists in two successive drafts, and each is modelled as written.

- `minesweeper.js` keeps the mines in a `Uint8Array` and the face of every
  square in the DOM: its class name and text. Its neighbour list includes the
  square itself, and its flag cycle has three states: default → flag → `?` →
  default.
- `game.js` keeps a board of `Square` objects with boolean fields and a
  mine count. Its neighbour list leaves the square out. Its flag cycle is
  unmarked → flagged → questioned → flagged, and it never returns to unmarked.

The project has six modules.

- `Grid` (grid.dfy): row-major indices and their round trip to (row, column).
  It also generates the 3x3 window of a square, with or without the centre,
  without wrap-around, and sums values over a list of indices.
- `Text` (text.dfy): the element ids `row + ',' + col`, how the handlers parse
  them back with `split(',')` and `parseInt`, and the decimal text of a count.
- `Sampling` (sampling.dfy): the rejection-sampling loop that lays the mines.
  It is specified as "the first `count` distinct draws of a stream".
- `Flood` (flood.dfy): the region a breadth-first fill reaches. It is defined
  as the least set that holds the start and is closed under spreading from
  zero-count squares. `Searching` is the invariant of a FIFO queue plus a
  visited set, and it shows that such a search stops with exactly that
  region.
- `Minesweeper` (minesweeper.dfy): `minesweeper.js`.
  - A pure `State` holds the mines, the face of each cell, and `isPlaying`.
  - Each handler is a function on `State`: `Click`, `Chord`, `BlanksOpened`,
    `FlagCell`.
  - The class `Minesweeper` holds `game: array<uint8>` and `cells: array<Cell>`.
    Its methods run the source's loops and are proved to leave
    `Model() == <function>(old(Model()))`.
- `Game` (game.js): the same pattern. `Square` and `Board` are classes whose
  fields the methods update in place. `getNeighbors` returns the nine holes of
  `new Array(9)` (as `null`) followed by the neighbouring squares.

The random draws of `Math.random` become a finite parameter `draws`.

## Model

| member | source | states |
|---|---|---|
| Grid.IndexRoundTrip | minesweeper.js:367-369 | an in-bounds (row, col) has a row-major index in [0, height·width), and that index gives back the same row and column |
| Grid.CoordsRoundTrip | minesweeper.js:367-369 | every index of the grid comes from exactly one in-bounds (row, col) |
| Grid.WindowFacts | minesweeper.js:324-346 | the generated window is strictly increasing, so it has no duplicates; it lies on the grid; it has at most 9 entries with the centre and at most 8 without |
| Grid.WindowMembership | minesweeper.js:324-346 | a cell is in the window exactly when it is on the grid, at most one row and one column away (no wrap-around), and it is not the centre when the centre is excluded |
| Grid.WindowCentre | minesweeper.js:332-339 | the centre square is in its own window exactly when the centre is included |
| Grid.WindowSymmetric | minesweeper.js:324-346 | being neighbours is symmetric |
| Grid.SumWithCentre | minesweeper.js:248-259 | a sum over the window with the centre equals the sum without the centre plus the centre's own value |
| Grid.SumBound | minesweeper.js:248-259 | a sum of 0/1 values over n indices lies in 0..n |
| Grid.SumBump | game.js:75-79 | adding one to one value raises a sum over distinct indices by one exactly when that index is among them |
| Text.DecimalRoundTrip | minesweeper.js:371-375 | `parseInt` of a count's decimal text gives back the count |
| Text.IdRoundTrip | minesweeper.js:127-130 | the element id `row + ',' + col` has its first comma just after the row digits, and it parses back to (row, col) |
| Sampling.Dedup | minesweeper.js:64-74 | the distinct values of a stream, in order of first appearance: no duplicates and the same members |
| Sampling.DedupSnoc | minesweeper.js:67-73 | one more draw adds its value exactly when that value is not already taken |
| Sampling.Chosen | minesweeper.js:64-74 | the cells chosen are distinct, at most `count` of them, each drawn from the stream |
| Sampling.StopsAt | minesweeper.js:64-74 | the loop that stops after `count` distinct draws, or when the stream runs out, has laid exactly `Chosen`, and it completes exactly when the stream holds enough distinct values |
| Sampling.ChosenSize | minesweeper.js:64-74 | on a complete stream exactly `count` distinct cells are chosen |
| Sampling.NeverEnoughWhenOverfull | minesweeper.js:59-60 | with at least one cell and more mines than cells, no stream of in-range draws completes, so the source loops forever |
| Flood.Closure | minesweeper.js:279-305 | the closure contains its seed, lies on the grid and is closed under spreading from zero-count squares |
| Flood.ClosureLeast | minesweeper.js:279-305 | the closure is contained in every closed superset of its seed |
| Flood.Region | minesweeper.js:279-305 | the fill region contains the start, lies on the grid, and is closed |
| Flood.RegionLeast | game.js:181-206 | the fill region is the least closed set containing the start |
| Flood.EnqueueFacts | minesweeper.js:294-302 | pushing the unvisited neighbours marks each of them visited when it is queued and queues no square twice: queue length + visited size is preserved |
| Flood.SearchStart | minesweeper.js:280-282 | the queue `[start]` with an empty visited set satisfies the search invariant |
| Flood.SearchStep | minesweeper.js:283-303 | one dequeue keeps the invariant; it spreads from the dequeued square only when that square spreads |
| Flood.SearchEnd | minesweeper.js:283-305 | with an empty queue, the dequeued squares are exactly the region, after at most height·width+1 dequeues |
| Minesweeper.Minesweeper.constructor | minesweeper.js:23-52 | mines lie exactly at the first `numMines` distinct draws, every cell shows default as on the board `populate` builds (the constructor itself builds none, see Left out), and the game is playing |
| Minesweeper.Minesweeper.ConstructBoard | minesweeper.js:60-77 | a new `Uint8Array` of height·width entries holding 1 exactly at the first `nMines` distinct draws; it completes exactly when the stream holds that many |
| Minesweeper.Minesweeper.DrawUntilLaid | minesweeper.js:65-73 | the retry loop keeps the array laid for the draws read so far; every draw it rejects repeats an earlier draw, and the draw that lays a mine is the first new one (on an empty array the first draw lays it); without one it reads to the end of the stream |
| Minesweeper.Minesweeper.DrawOnce | minesweeper.js:68-72 | one draw lays a mine exactly when it is new, or the array is empty, and the array stays laid for the draws read so far |
| Sampling.RepeatsAll | minesweeper.js:67-73 | every draw in a rejected stretch names a cell drawn before it |
| Minesweeper.Layout | minesweeper.js:61-72 | the `Uint8Array` holds 1 exactly at the laid cells and 0 everywhere else |
| Minesweeper.DrawKeepsLaid | minesweeper.js:67-73 | a draw onto an existing mine changes nothing; a draw onto an empty cell sets it to 1 and counts one more mine |
| Minesweeper.DrawStep | minesweeper.js:67-73 | a fresh draw sets exactly one more entry of the layout to 1 |
| Minesweeper.LayoutHoldsAllMines | minesweeper.js:59-77 | with numMines ≤ cells and a complete stream, exactly numMines entries are 1 |
| Minesweeper.OverfullNeverCompletes | minesweeper.js:59-77 | with at least one cell and more mines than cells, the laying never completes |
| Minesweeper.Minesweeper.IdIndex | minesweeper.js:127-130 | the index a handler computes from a square id lies on the board |
| Minesweeper.Minesweeper.IdFromIndex | minesweeper.js:371-375 | the id of an index is a square id, and it parses back to that index |
| Minesweeper.Minesweeper.IdOfGameIndex | minesweeper.js:367-375 | `idFromIndex(gameIndex(row, col))` is `row + ',' + col`, it parses back to (row, col), and the index lies in [0, width·height) |
| Minesweeper.Minesweeper.GetNeighborIndices | minesweeper.js:324-346 | the loop returns the 3x3 window of the start, centre included |
| Minesweeper.NeighborIndicesFacts | minesweeper.js:324-346 | the neighbour list has no duplicates and at most 9 entries; it contains the start; a cell is in it exactly when it is on the grid and at most one row and one column away |
| Minesweeper.Minesweeper.GetSurroundings | minesweeper.js:248-259 | the loop returns the sum of the mine array over the neighbour list |
| Minesweeper.Surroundings | minesweeper.js:248-259 | the count lies in 0..9 |
| Minesweeper.SurroundingsCountsNeighbours | minesweeper.js:248-259 | the count is the number of mines among the ≤8 true neighbours plus the square's own mine; for a non-mine it is exactly the mines among its neighbours |
| Minesweeper.Minesweeper.GetFlags | minesweeper.js:263-276 | the loop returns the number of cells with class `flagged` in the neighbour list, and those include `?` cells |
| Minesweeper.FlagMarks | minesweeper.js:270 | a cell counts as a flag exactly when its class is `flagged` |
| Minesweeper.Minesweeper.RevealNumbered | minesweeper.js:166-204 | returns the text the square shows for its count |
| Minesweeper.NumberText | minesweeper.js:171-203 | the text is empty exactly when the count is 0; otherwise it is decimal digits that parse back to the count |
| Minesweeper.Minesweeper.Explode | minesweeper.js:225-243 | `isPlaying` becomes false and nothing else of the model changes |
| Minesweeper.Minesweeper.RevealSquare | minesweeper.js:351-364 | the cell's class becomes 'revealed', and a cell holding a mine ends the game |
| Minesweeper.Minesweeper.OpenBlanks | minesweeper.js:279-305 | the fill reveals every non-mine cell of the start's region, overriding flags, and nothing else; it ends after at most width·height+1 dequeues |
| Minesweeper.Minesweeper.Visit | minesweeper.js:283-303 | one pass of the loop keeps the search invariant, grows the visited set or shrinks the queue, and reveals the dequeued cell if it holds no mine |
| Minesweeper.Minesweeper.PushNeighbours | minesweeper.js:294-302 | neighbours are queued, and marked visited, only from a zero-count cell, and only the unvisited ones |
| Minesweeper.BlanksRevealed | minesweeper.js:285-289 | exactly the mine-free cells of the given set become revealed |
| Minesweeper.BlanksRevealedAdd | minesweeper.js:285-289 | revealing one more dequeued cell is revealing it in the model |
| Minesweeper.OpenBlanksIdempotent | minesweeper.js:279-305 | a second fill from the same start changes nothing |
| Minesweeper.RegionMineFree | minesweeper.js:279-305 | starting from a non-mine, every square the fill reaches is mine-free |
| Minesweeper.ClickOnBlankOpensRegion | minesweeper.js:153-158 | a click on a default zero-count square reveals its whole region |
| Minesweeper.Minesweeper.OpenNumbered | minesweeper.js:307-320 | clicks each neighbour whose class is `default`, in neighbour order |
| Minesweeper.ChordSnoc | minesweeper.js:312-319 | a chord over one more neighbour clicks it only when it is still default |
| Minesweeper.ChordTest | minesweeper.js:134-142 | on a revealed square the chord test compares the flags among its true neighbours with the mines among them |
| Minesweeper.InitialSound | minesweeper.js:23-52 | the game the constructor starts is sound: playing, with no mine showing |
| Minesweeper.FlagKeepsSound | minesweeper.js:206-223 | flagging keeps the game sound |
| Minesweeper.Minesweeper.Reveal | minesweeper.js:119-161 | the handler does what `Click` says; when not playing, or on a flagged cell, it does nothing |
| Minesweeper.Click | minesweeper.js:119-161 | a click keeps the board shape and the mines; it does nothing when not playing or on a cell marked with a flag or `?`; a click on a default mine ends the game |
| Minesweeper.ClickKeepsSound | minesweeper.js:126-161 | a click keeps the game playing exactly as long as no mine is showing |
| Minesweeper.ChordKeepsSound | minesweeper.js:307-320 | the same holds for a chord |
| Minesweeper.ClickKeepsRevealed | minesweeper.js:119-161 | no click hides a revealed cell |
| Minesweeper.ChordKeepsRevealed | minesweeper.js:307-320 | no chord hides a revealed cell |
| Minesweeper.Minesweeper.Flag | minesweeper.js:206-223 | the handler does what `FlagCell` says |
| Minesweeper.FlagCycle | minesweeper.js:206-223 | on an unrevealed cell each click changes the mark, and three clicks return it to where it was: default → flag → `?` → default |
| Minesweeper.FlagOnlyMarks | minesweeper.js:206-223 | flagging changes only that cell, never reveals or hides a cell, and does nothing when not playing |
| Game.OpenOf | game.js:340-353 | `open` answers 'explode' exactly for an unmarked mine; 'blank' exactly for an unmarked, unopened non-mine with count 0; 'numbered' exactly for an unmarked non-mine with a count; `undefined` otherwise |
| Game.Square.Open | game.js:340-353 | `Square.open` reads the square and answers `OpenOf` of its fields |
| Game.Square.constructor | game.js:322-330 | a new square has its row and column, is not open, not a mine, not marked, and has count 0 |
| Game.Board.constructor | game.js:253-257 | the board has height·width distinct squares, fresh and unused, in row-major order |
| Game.Board.BuildBoard | game.js:259-270 | the nested loop makes height·width distinct new squares, each unused, the one at index k having the row and column of k |
| Game.Board.BoardIndex | game.js:296-298 | an in-bounds (row, col) has an index on the board, and it gives back the same row and column |
| Game.Board.Get | game.js:300-302 | `get(r, c)` returns the square whose `row` is r and whose `col` is c |
| Game.Board.GetNeighbors | game.js:273-293 | the list is nine holes, then the squares of the window without the centre, in row-major order |
| Game.Board.PushNear | game.js:279-288 | one offset of the window pushes its square exactly when it is not the centre and lies on the board, and the list keeps its shape |
| Game.ListsSnoc | game.js:283-287 | pushing a square of the board keeps that shape |
| Game.Nbrs | game.js:273-293 | the true neighbours lie on the board, have no duplicates, and number at most 8 |
| Game.NbrsFacts | game.js:273-293 | a square is never its own neighbour, and a cell is a neighbour exactly when it is on the board and at most one row and one column away |
| Game.Minesweeper.constructor | game.js:26-57 | the board holds mines exactly at the first `numMines` distinct draws; every count is the number of mines around its square; nothing is open or marked; the game is playing |
| Game.Minesweeper.LayMines | game.js:60-84 | the squares are those of `Laid` over the chosen draws; the method completes exactly when the stream has enough distinct cells |
| Game.Minesweeper.DrawUntilLaid | game.js:66-81 | the retry loop keeps the board laid for the draws read so far; every draw it rejects names a cell drawn before, and the draw that lays a mine is the first new one; without one it reads to the end of the stream |
| Game.Minesweeper.DrawOnce | game.js:67-80 | one draw lays a mine exactly when its cell was not drawn before, and the board stays laid for the draws read so far |
| Game.Minesweeper.LayAt | game.js:69-80 | a draw onto a mine changes nothing; otherwise the square becomes a mine and each of its neighbours' counts goes up by one |
| Game.Minesweeper.IncrementAll | game.js:75-79 | the `forEach` adds one to the count of exactly the listed squares |
| Game.DrawKeepsLaid | game.js:66-81 | one draw extends the laid board by that draw when it is fresh, and leaves it alone otherwise |
| Game.LaidStep | game.js:69-80 | laying one more mine is marking it and bumping its neighbours |
| Game.CountNearStep | game.js:69-80 | the count of a square goes up by one exactly when the new mine lies around it |
| Game.Bumped | game.js:75-79 | exactly the listed squares get one more count |
| Game.LaidConsistent | game.js:60-84 | after laying, every square's count is the number of mines among its neighbours |
| Game.LaidMineCount | game.js:60-84 | with a complete stream, exactly numMines squares are mines |
| Game.SameBoardConsistent | game.js:60-84 | the counts stay right through any change that leaves the mines alone |
| Game.Minesweeper.IdFromBoard | game.js:227-229 | the id of a square is a square id that parses back to its index |
| Game.Minesweeper.IdIndex | game.js:371-373 | the index a handler computes from an id lies on the board |
| Game.Minesweeper.GetFlags | game.js:168-179 | returns the number of flagged neighbours |
| Game.Minesweeper.Explode | game.js:146-164 | evidently intended behaviour: `isPlaying` becomes false and nothing else changes |
| Game.Exploded | game.js:162 | the exploded state does not answer clicks |
| Game.Minesweeper.OpenBlanks | game.js:181-206 | the fill reveals the region by `reveal(false, false)` on each square, which opens only its unmarked numbered squares; it ends after at most height·width+1 dequeues |
| Game.Minesweeper.Visit | game.js:185-205 | one pass of the loop keeps the search invariant on the square objects and their indices, and grows the visited set or shrinks the queue |
| Game.Minesweeper.RevealHead | game.js:186-191 | revealing the dequeued square is adding it to the revealed part of the region |
| Game.Minesweeper.Expand | game.js:193-204 | neighbours are pushed, and marked visited, only from a square whose count is 0, and only those not yet visited |
| Game.Minesweeper.PushNeighbours | game.js:197-204 | the `forEach` is `Enqueue` on the square objects |
| Game.ObjsHas | game.js:198 | `visited.has(neighbor)` answers for a square exactly when its index is visited, since the squares are distinct objects |
| Game.BlanksRevealed | game.js:181-206 | on the squares of the set, while playing, exactly the unmarked numbered ones are opened and blanks stay closed; it stands for `reveal(false, false)` only on mine-free squares, which the fill region is when the counts are right (`RegionMineFree`) |
| Game.BlanksRevealedAdd | game.js:190-191 | a `reveal(false, false)` of one more dequeued non-mine is revealing it in the model |
| Game.RegionMineFree | game.js:195-204 | when the counts are right, the fill from a non-mine reaches no mine |
| Game.BlankClickOpensRim | game.js:384-388 | a click on a blank opens every numbered square of its region |
| Game.Minesweeper.OpenNumbered | game.js:208-225 | when the flags around the square equal its count, every neighbour that is neither open nor flagged is clicked with `reveal(true, false)`; otherwise nothing changes |
| Game.Minesweeper.ChordAll | game.js:213-223 | the `forEach` is the chord over the neighbour list |
| Game.Minesweeper.ChordStep | game.js:216-222 | one neighbour is clicked only when neither open nor flagged |
| Game.ChordSnoc | game.js:215-223 | a chord over one more neighbour clicks it only when it is neither open nor flagged |
| Game.NoNestedChord | game.js:390-399 | a click with `doOpenNumbered` false on an open numbered square does nothing, so a chord never starts another chord |
| Game.Minesweeper.Reveal | game.js:369-408 | the handler does what `Click` says for its two switches; when not playing it does nothing |
| Game.Minesweeper.OpenSquare | game.js:390-394 | an unopened numbered square becomes open and nothing else changes |
| Game.Click | game.js:369-408 | a click keeps the board shape and the mines; it does nothing when not playing; a click on an unmarked mine ends the game |
| Game.ClickAdvances | game.js:369-408 | a click never changes a mark, never closes an open square, and keeps every count right |
| Game.ChordAdvances | game.js:208-225 | the same holds for a chord |
| Game.ClickLeavesBlanksClosed | game.js:384-388 | no click opens a square whose count is 0 |
| Game.ChordLeavesBlanksClosed | game.js:208-225 | no chord opens a square whose count is 0 |
| Game.Minesweeper.Flag | game.js:410-437 | the handler does what `FlagAt` says |
| Game.FlagCycle | game.js:410-437 | from unmarked: flagged, then questioned, then flagged again; it never returns to unmarked |
| Game.NextMarkOneMark | game.js:410-437 | a square never ends up both flagged and questioned; after a click it carries exactly one mark; open state, mine and count are untouched |
| Game.FlagOnlyMarks | game.js:410-437 | flagging changes only that square's marks, also on an open square, and does nothing when not playing |
| Game.ExplodeAsWritten | game.js:146-164 | as written, `explode` throws before `isPlaying` is cleared |
| Game.MineClickKeepsPlaying | game.js:146-164 | on a one-square board holding a mine, the mine click leaves the game playing as written, while the corrected model ends it |

## Left out

- Rendering and input wiring are not modelled. This covers `populate`, the mouse handlers, colours, `getColor`, the symbols `explode` draws, and `console.log`. Only the state the DOM stands for is modelled: each cell's class and text in `minesweeper.js`, and the square fields in `game.js`.
- `Math.random` becomes a finite stream of draws. The model makes no claim about uniformity.
- When the stream runs out before enough distinct cells are drawn, the model stops with fewer mines; `LayMines` reports this as `complete == false`. The source would keep drawing.
- On a grid with at least one cell and more mines than cells, `constructBoard` in `minesweeper.js` loops forever. The model shows that no stream completes (`OverfullNeverCompletes`, `NeverEnoughWhenOverfull`). On a grid with no cells, `minesweeper.js` reads `undefined` for every draw, counts each mine as laid and stops (`LaidSoFar` with an empty array); `game.js` throws instead (see `Game.Minesweeper.constructor` below).
- `reset`, `setup` and `window.onload` are not modelled. `window.onload` passes height and width swapped, and as strings. `reset` calls `constructBoard` wrongly or not at all.
- Minesweeper.Minesweeper.constructor: the constructor never calls `populate`; only `reset` does (minesweeper.js:392). So right after `new Minesweeper(...)` no square elements exist. The model's `cells` array, every cell 'default', is the board `populate` would create, and the model starts from the game as it stands once `populate` has run.
- Minesweeper.Minesweeper.constructor: `constructBoard` is modelled by its own parameter list `(height, width, nMines)`. The constructor passes its arguments in another order, which changes the result only through that swap.
- Win detection exists only as a TODO and is not modelled. So are `timer`, `mineCounter`, `minesFlagged` and `flagMode`.
- `Square.layMine`, `Square.flag` (which writes an unused `isFlag`), `Board.length` and `Board.toString` are not modelled. The `class Square()` of `minesweeper.js` does not parse and is not modelled.
- Game.Minesweeper.constructor: `layMines` on a board with no squares and at least one mine throws in the source. This is a precondition in the model (`height * width > 0 || numMines == 0`).
- Game.Minesweeper.OpenBlanks: it requires a non-mine start. `reveal` only calls it from the 'blank' case, which the start always is. Its postcondition describes the squares after the fill, not the order of the `reveal` calls.
- Game.Board.constructor: `buildBoard` appends to a list instead of writing into a pre-sized array. This gives the same squares in the same slots.
- In `minesweeper.js`, `reveal` and `flag` are class methods installed as the square element's `onclick` and `oncontextmenu` handlers (minesweeper.js:99-100), so they run with `this` bound to the element and reach the game through the global `game`. In `game.js` they are global functions installed the same way (game.js:106-107). Both are modelled as methods of the game class that take the element's id. In `game.js` the click event fills the first parameter, `doOpenBlanks`, and an event object is truthy, so a click is modelled with that switch set.
- The class methods are split into helpers (`Visit`, `RevealHead`, `Expand`, `PushNeighbours`, `ChordAll`, `ChordStep`, `LayAt`, `IncrementAll`, `OpenSquare`, `PushNear`, both `DrawUntilLaid`s and both `DrawOnce`s). Each stands for one loop body or one `forEach` callback of the cited lines.
- JavaScript's single thread and event queue are not modelled. Each handler runs to completion.

## Findings

| source | as written | input that shows it | evidently intended | confidence | as-written member | corrected member |
|---|---|---|---|---|---|---|
| game.js:146-164 | `explode` reads `this.game.length`, but this class has no `game` field, so a TypeError is thrown before `this.isPlaying = false` and the board keeps answering clicks | a 1x1 board whose only square is a mine, clicked once | clicking a mine ends the game | not executed | Game.ExplodeAsWritten, Game.MineClickKeepsPlaying | Game.Exploded, Game.Minesweeper.Explode |
