# Sudoku board state, modelled in Dafny

A model of the board state of the `SugokuGame` React component. The component fetches a
puzzle from the sugoku web service, lets the user fill the empty cells, and asks the
service to validate or solve the board. The model covers three parts:

- **The request encoder** (`encodeBoard`, `encodeParams`). These turn a board into the
  form-urlencoded body that the validate and solve endpoints read. Module `Encoder`
  holds the functions. Module `EncoderFacts` proves what the body looks like: rows joined
  by `%2C`, each row `%5B` + numbers joined by `%2C` + `%5D`, and the separator counts.
  Module `Decoder` reads a number's text back to the number. It also proves that a board of
  single digits can be read back from its body.
- **The read-only mask** (module `Grids`). A fetched cell is locked exactly when it is
  non-zero.
- **The board controller** (module `Game`). Class `BoardState` holds the component's four
  state cells: `board`, `originalBoard`, `readOnly` and `status`. Its methods are the
  handlers: capture a fetched puzzle, reset, edit a cell, validate, solve. Each puzzle
  service call is a parameter of the method, either the reply itself or a function from
  the request body to the reply. For validate and solve, `None` stands for the rejected
  promise that the code catches (lines 76 and 91). The board fetch has no `catch`; there
  `None` stands for a failed fetch, which leaves the state as it was.

The board fields are `array2` objects, so sharing stays visible. `getBoard` stores one
array in both `board` and `originalBoard` (line 49). `handleOnChange` writes into that
array's row (line 64) and copies only the outer array (line 65). So every edit also
changes `originalBoard`, and the solve request (line 82) carries the user's edits.
`Capture` assigns one array to both fields. `SolveAfterEdit` proves that the solver gets
the edited puzzle. For digit boards its request differs from the unedited puzzle's.
Sending the unedited puzzle, so that wrong entries never reach the solver as clues, may
have been the intent. The code does not do it, and this model follows the code.

## Model

| member | source | states |
|---|---|---|
| `Grids.ReadOnlyMask` | src/components/SugokuGame.tsx:38-46 | the mask has the board's shape and a cell is read-only exactly when the fetched cell is not 0 |
| `Grids.MaskLocksFilledCells` | src/components/SugokuGame.tsx:38-46 | the mask locks as many cells as the puzzle fills |
| `Grids.FilledAtMostCells` | src/components/SugokuGame.tsx:38-46 | a board has at most as many filled cells as cells; none are filled exactly when every cell is 0, and all exactly when no cell is 0 |
| `Grids.MaskEdgeCases` | src/components/SugokuGame.tsx:38-46 | the mask locks no cell exactly when the fetched board is all zeros, and locks every cell exactly when the board has no zero |
| `Encoder.NumberText` | src/components/SugokuGame.tsx:11 | the text of a number is non-empty and holds only digits and a minus sign, so `encodeURIComponent` leaves it unchanged |
| `Decoder.NaturalTextValue` | src/components/SugokuGame.tsx:11 | reading the decimal digits of a natural number back gives the number |
| `Decoder.NumberTextValue` | src/components/SugokuGame.tsx:11 | reading the text of any integer back, minus sign included, gives the integer |
| `Decoder.NumberTextInjective` | src/components/SugokuGame.tsx:11 | two integers with the same text are equal |
| `EncoderFacts.ReduceRowsIsJoin` | src/components/SugokuGame.tsx:8-12 | after k rows the `reduce` accumulator is those rows joined by `%2C`, plus a trailing `%2C` unless the last row was appended |
| `EncoderFacts.EncodeBoardIsJoin` | src/components/SugokuGame.tsx:7-13 | `encodeBoard` is `""` for an empty board; otherwise it is the encoded rows with `%2C` between consecutive rows and none after the last |
| `EncoderFacts.EncodeUriComponentJoin` | src/components/SugokuGame.tsx:11 | escaping a comma-joined list of comma-free texts gives the same texts joined by `%2C` |
| `EncoderFacts.EncodeRowShape` | src/components/SugokuGame.tsx:11 | a row is sent as `%5B` + its numbers joined by `%2C` + `%5D` |
| `EncoderFacts.CellSeparatorCount` | src/components/SugokuGame.tsx:11 | a row of n numbers holds exactly n - 1 `%2C` |
| `EncoderFacts.RowSeparatorCount` | src/components/SugokuGame.tsx:7-13 | a board of n rows holds exactly n - 1 row separators `%5D%2C%5B` |
| `EncoderFacts.NineByNineSeparators` | src/components/SugokuGame.tsx:8-12 | a 9 x 9 board holds exactly 8 row separators, and each row holds 8 `%2C` |
| `EncoderFacts.EncodeBoardAvoidsAmpersand` | src/components/SugokuGame.tsx:7-13 | an encoded board never contains `&` |
| `EncoderFacts.SingleParam` | src/components/SugokuGame.tsx:15-18 | one key gives `key=%5B` + encoded board + `%5D`, with no `&` when the key has none |
| `EncoderFacts.AmpersandCount` | src/components/SugokuGame.tsx:15-18 | n entries whose keys have no `&` are joined by exactly n - 1 `&` |
| `EncoderFacts.OccurrencesInJoin` | src/components/SugokuGame.tsx:15-18 | parts free of a separator that cannot overlap itself, joined by it, contain it exactly once per gap |
| `Decoder.DecodeEncode` | src/components/SugokuGame.tsx:7-13 | decoding the encoding of a board of digits 0..9 gives the board back |
| `Decoder.EncodeBoardInjective` | src/components/SugokuGame.tsx:7-13 | two digit boards with the same encoding are equal |
| `Decoder.RequestBodyInjective` | src/components/SugokuGame.tsx:15-18 | two digit boards sent under the same key give the same body only if they are equal |
| `Game.CopyGrid` | src/components/SugokuGame.tsx:31-36 | the copy is a fresh array with the fetched board's cells |
| `Game.MaskOf` | src/components/SugokuGame.tsx:38-46 | the mask array is fresh and equals `ReadOnlyMask` of the fetched board |
| `Game.BoardState.constructor` | src/components/SugokuGame.tsx:21-24 | the initial state is two distinct empty boards, no mask cells and status `"unsolved"` |
| `Game.BoardState.Capture` | src/components/SugokuGame.tsx:31-51 | `board` holds the fetched cells and keeps its shape; `originalBoard` is the same array; `readOnly` is the derived mask; status is `"unsolved"` |
| `Game.BoardState.Reset` | src/components/SugokuGame.tsx:94-96 | a fetched puzzle is captured as above; a failed fetch changes nothing |
| `Game.BoardState.EditCell` | src/components/SugokuGame.tsx:59-66 | only cell (r, c) of the board changes, to v. The original board shows the edit when it shares the array and is untouched otherwise. Mask and status do not change |
| `Game.BoardState.Validate` | src/components/SugokuGame.tsx:68-77 | status becomes the validator's reply to the current board's body. Board, mask and original board do not change. A failed request changes nothing |
| `Game.BoardState.Solve` | src/components/SugokuGame.tsx:79-92 | the request carries the original board. On a reply the board becomes the solution, a 9 x 9 mask is fully locked and status is the reply's. The original board does not change. A failed request changes nothing |
| `Game.EditChangesRequest` | src/components/SugokuGame.tsx:79-84 | filling an empty cell of a digit board with a digit 1..9 changes the request body |
| `Game.SolveAfterEdit` | src/components/SugokuGame.tsx:48-84 | after capture and one edit, the solve request carries the edited puzzle, not the fetched one |

## Left out

- The network calls (`fetch`, `res.json()`, the endpoint URLs), `async`/`await`, `useEffect` and the `console.log`/`console.warn` calls are I/O. Replies are parameters of the methods. The initial load on mount is `Reset` on a fresh state.
- Responses that arrive out of order are not modelled. Each method applies the reply to the request it built, at once. The code has no guard against a stale reply either.
- JSX rendering and styling are left out. The `readOnly` attribute of the inputs (line 109) becomes the precondition `Editable` of `EditCell`. A locked cell is never edited.
- `Number(e.target.value)` coercion (NaN, decimals, the empty string) is left out. The new value is an integer.
- `encodeURIComponent` is modelled only on what a row's text holds: digits and the minus sign pass through, and a comma becomes `%2C`.
- `Encoder.NumberText` covers integers only. Non-integral numbers and numbers that JavaScript prints in exponent form are left out.
- Boards are rectangular (`Grids.Grid`), because a two-dimensional array holds only those. Ragged JSON boards are left out.
- Parameter objects are sequences of key/board pairs, in the order the keys are given. JavaScript puts integer-like keys first; that ordering is not modelled.
- Replies without a `status` or `solution` field, and a fetch reply without `board`, are left out. Only the rejected-promise branch is modelled (`None`).
- A failed board fetch (lines 26-29, on mount at line 55 and in `handleReset` at line 95) is not caught: the promise rejection goes unhandled. The model gives only its effect on the state, which is none (`Reset(None)`). The unhandled rejection itself is not modelled.
- The initial `readOnly` value is `undefined`. It is modelled as an empty mask. The board is empty then, so no input exists.
- `Decoder.DecodeEncode`: the round trip is proved only for boards whose cells are single digits 0..9. These are the boards the service deals in.
