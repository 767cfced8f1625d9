# Lights Out board logic in Dafny

This project models the game logic of a React Lights Out board (`src/Board.js`)
apart from its rendering. The board is a grid of lit and unlit cells. Clicking a
cell toggles it and its orthogonal neighbours. The game is won when no cell is lit.

The model has two modules.

- `Board` (`board.dfy`) covers the board logic.
  - `CreateBoard` builds the starting board with the source's nested loops and
    pushes. The random source is passed in as `draws`: the values `Math.random()`
    returns, in the order the loops ask for them.
  - `FlipCell` is the bounds-checked in-place toggle. It works on a
    two-dimensional array, the mutable copy of the board.
  - `FlipCellsAround` is the state updater of a move. It parses the cell id.
    Then `MoveAt` deep-copies the old board into a fresh array (`DeepCopy`),
    makes the five flips in the source's order and returns the copy.
  - `HasWon` is the nested `every` of the win check.
  - The board state is a value of type `Grid = seq<seq<bool>>`, where `true`
    means lit. The pure functions `Toggle` and `FlipAround` specify the two
    mutating methods.
- `CellId` (`cell_id.dfy`) covers the cell id.
  - `FormatId` is the template literal `${rowIndx}-${cellIndx}`.
  - `ParseId` is `id.split("-").map(Number)`.
  - These are built from models of `String.prototype.split` (`Split`), of
    `Number` on digit strings (`Number`) and of the decimal rendering of a
    non-negative integer (`NatToString`).

`flipCell` checks its bounds against the component's `nrows` and `ncols` props,
not against the board array. The model keeps that split: each operation takes
`nrows` and `ncols`, and requires the board to have those dimensions. This holds
because the board was generated from the same props.

## Model

| member | source | states |
|---|---|---|
| `Board.CreateBoard` | src/Board.js:35-50 | From `nrows * ncols` draws it builds exactly `nrows` rows of exactly `ncols` cells. Cell (y, x) is lit iff the draw taken for it is below `chanceLightStartsOn`. |
| `Board.DrawIndex` | src/Board.js:38-41 | The draw for cell (y, x) is the `y * ncols + x`-th value the loops take, and it lies within the stream. |
| `Board.DrawIndexInjective` | src/Board.js:38-41 | Two different cells never share a draw. |
| `Board.DrawIndexOnto` | src/Board.js:38-41 | Every draw decides a cell: draw k decides cell (k / ncols, k % ncols). |
| `Board.GeneratedUnique` | src/Board.js:35-50 | Once the draws are fixed, generation is deterministic: two boards generated from the same inputs are equal. |
| `Board.ChanceZeroBlank` | src/Board.js:41-45 | With chance 0 and draws in [0, 1), the board is all unlit, so it starts won. |
| `Board.ChanceOneAllLit` | src/Board.js:41-45 | With chance 1 and draws in [0, 1), every cell is lit, so a non-empty board does not start won. |
| `Board.RowUnlit` | src/Board.js:55 | `row.every(cell => cell === false)` is true iff no cell of the row is lit. |
| `Board.HasWon` | src/Board.js:52-56 | True iff no cell of any row is lit. This includes the board with no rows. |
| `Board.WonIffBlank` | src/Board.js:55 | A rectangular board is won iff it equals the all-unlit board of its dimensions. |
| `Board.LitCellNotWon` | src/Board.js:55 | A board with any lit cell is not won. |
| `Board.Toggle` | src/Board.js:67-73 | Value form of `flipCell`. The result has the same dimensions. Cell (y, x) is negated when on the board, and every other cell is kept. |
| `Board.ToggleOffBoard` | src/Board.js:70-72 | Toggling a coordinate outside `0 <= x < ncols`, `0 <= y < nrows` changes nothing. |
| `Board.FlipCell` | src/Board.js:67-73 | In place on the board copy: the array afterwards holds `Toggle` of what it held before. |
| `Board.FlipAround` | src/Board.js:79-83 | The five flips of a move, in source order. The dimensions are preserved. |
| `Board.DeepCopy` | src/Board.js:76 | The copy is a freshly allocated array with the old board's dimensions and cells. |
| `Board.MoveAt` | src/Board.js:76-86 | Copies the old board, makes the five flips in the copy and returns it. The result has the old board's dimensions and equals `FlipAround` at (y, x). |
| `Board.FlipCellsAround` | src/Board.js:63-87 | Parses the id and makes the move at the parsed coordinate. It returns a board of the old board's dimensions equal to `FlipAround` at that coordinate. |
| `Board.FlipAroundCell` | src/Board.js:79-83 | After a move at (y, x), an on-board cell is negated iff it is (y, x) or one of its orthogonal neighbours. Every other cell keeps its value. |
| `Board.FlipAroundTwice` | src/Board.js:79-83 | Making the same move twice restores the board, for any coordinate. |
| `Board.FlipAroundChanged` | src/Board.js:79-83 | The set of changed cells is exactly the set of on-board cells within reach of (y, x). |
| `Board.FlipAroundChangedCount` | src/Board.js:79-83 | A move at an on-board cell changes `1 + [y > 0] + [y < nrows-1] + [x > 0] + [x < ncols-1]` cells. |
| `Board.FlipAroundChangedByPosition` | src/Board.js:79-83 | On a board at least 2 by 2, a move changes 3 cells at a corner, 4 on an edge that is not a corner, 5 in the interior, and always between 3 and 5. |
| `Board.CentreExample` | src/Board.js:79-86 | 3-by-3 board lit only at the centre: a move there leaves the four neighbours lit and the rest unlit, so the board is not won. |
| `Board.SingleCellExample` | src/Board.js:79-86 | 1-by-1 lit board: the move unlights it and the board is won. |
| `CellId.NatToString` | src/Board.js:107 | `${n}` gives a canonical numeral: non-empty, all digits, no leading zero, and "0" only for 0. |
| `CellId.Number` | src/Board.js:64 | `Number` on a digit string is its decimal value, with `Number("")` = 0. The value is 0 exactly when every digit is '0'. `NumberOfNatToString` and `NatToStringOfNumber` make it the inverse of `NatToString` on canonical numerals. |
| `CellId.NumberOfNatToString` | src/Board.js:64 | `Number` applied to the rendering of n gives n. |
| `CellId.NatToStringOfNumber` | src/Board.js:107 | Rendering the value of a canonical numeral gives the numeral back. |
| `CellId.Split` | src/Board.js:64 | `split` returns at least one part, and no part contains the separator. |
| `CellId.JoinSplit` | src/Board.js:64 | Joining the parts of a split with the separator gives the string back. |
| `CellId.SplitJoin` | src/Board.js:64 | Splitting a join of separator-free parts gives the parts back. |
| `CellId.ParseId` | src/Board.js:64 | A well-formed id gives at least the two numbers that `const [y, x]` reads. |
| `CellId.FormatId` | src/Board.js:107 | The id is the two canonical numerals joined by '-': splitting it on '-' gives exactly the row's and the column's numerals. `ParseFormatId` and `FormatParseId` make it the inverse of `ParseId`. |
| `CellId.ParseFormatId` | src/Board.js:107 | The id rendered for (row, col) is well formed, and parsing it gives `[row, col]`. |
| `CellId.FormatParseId` | src/Board.js:107 | An id made of exactly two canonical numerals is the rendering of the coordinate it parses to. |

## Left out

- React rendering, `useState`/`setBoard`, the JSX table, the `Cell` component and the `key` strings (src/Board.js:1-3, 32, 90-120). They are presentation, not game logic. `src/Cell.js` is not part of this model.
- The choice between the win message and the table (src/Board.js:91-97). This is rendering driven by `HasWon`.
- The `console.log` calls (src/Board.js:54, 61, 65). They are debug output only.
- `Math.random()` and the floating-point chance (src/Board.js:41). The draws are passed in as mathematical reals and compared with `<`. Rounding of IEEE doubles and the distribution of the draws are not modelled.
- The click event object `coord.target.id` (src/Board.js:60). The model starts from the id string.
- `Number` on anything but a string of decimal digits: whitespace, signs, hexadecimal forms and `NaN` (src/Board.js:64). `ParseId` requires every part of the id to be digits. Empty parts are allowed and read as 0, as `Number("")` gives.
- Ids with fewer than two parts, for which `x` would be `undefined`. The ids the board renders always have two parts (`ParseFormatId`).
- JavaScript numbers are modelled as unbounded integers. The coordinates and dimensions of a board never come near 2^53.
- Non-integer or negative `nrows`/`ncols` props. They are modelled as `nat`.
- Aliasing between the arrays of the JavaScript board. The board state is a `Grid` value, and the move works on a freshly allocated `array2`. So "the old board is untouched" holds by construction and is not proved about the depth of the copy.
- Props that change after the board is created, which would make the board's size differ from `nrows`/`ncols`. Each operation requires the board to have the props' dimensions.
