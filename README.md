# A bitboard Tetris demo, modelled in Dafny

The program is a self-playing Tetris page (`main.js`). It keeps a grid of
32 rows by 16 columns. Each row carries a 16-bit mask of its stopped cells,
in which bit c is column c. Row 31 is the floor: it starts full, stopped
and red. One falling piece has a row position `pos`, a colour and a 64-bit
value. The value holds four 16-bit shape rows, most significant first, so
shape row i lands on grid row `pos + i`. Collision is tested by a probe:
- the four row masks under the piece are printed as four-digit hex
  strings;
- the strings are joined and read back as one BigInt;
- that number is AND-ed with the piece.

Each animation tick (`run`) does four things in order:
1. It rebuilds the masks from the stopped flags and paints every other cell
   black (`updateGrid`).
2. It draws the piece and moves it one row down (`updatePiece(false)`).
3. It tries a random one-column move (`fakeMove`).
4. It runs the probe one row further down (`isColliding()`). On a hit, the
   piece is frozen where it is (`updatePiece(true)`) and a new one is
   spawned (`getPiece`).

The model has four modules:
- `Bits`: the BigInt operators `&`, `|`, `<<` and `>>` on naturals.
- `Hex`: `toString(16)`, `padStart` and `BigInt('0x…')`.
- `Bitboard`: the piece table, the probe, its arithmetic reading and the
  guarded move, all as pure functions with lemmas.
- `Game`: the page state as a class `Trix`. The masks are an `array<nat>`.
  The stopped flags and the cell colours are `array2`s. The piece is three
  fields. The page's operations are methods that update these in place.

`Trix.Valid()` is the state between two ticks:
- every mask is a 16-bit value;
- the floor row is full, stopped and red;
- the piece fits in 64 bits and has no bit in column 0 or 15;
- the piece can be tested one row down without reaching the floor.

`Run` preserves `Valid()`.

## Model

| member | source | states |
|---|---|---|
| Hex.ParseToHex | main.js:77-79 | Reading back the digits `toString(16)` wrote gives the number. |
| Hex.Padded4 | main.js:77 | For a 16-bit mask, `toString(16).padStart(4, '0')` is exactly four hex digits worth the mask. |
| Hex.ParseConcat | main.js:79 | Joining digit strings: the left part is worth 16^(length of the right part) times its value. |
| Bits.AndPow2 | main.js:90-91 | `(1n << k) & v` is nonzero exactly when bit k of v is set. |
| Bits.AndNonzeroIff | main.js:80 | `a & b` is truthy exactly when a and b share a set bit (both directions). |
| Bitboard.TemplateRows | main.js:9-20 | Each of the 20 PIECES values is the four listed 16-bit rows stacked most significant first, each row inside columns 1..14. |
| Bitboard.TemplatesEdgeFree | main.js:9-20 | Every PIECES value fits in 64 bits and has no bit in column 0 or column 15. |
| Bitboard.ShapeRowBit | main.js:86-90 | Bit c of shape row i (the row updatePiece's slot 3 - i draws) is bit `c + 16 * (3 - i)` of the value. |
| Bitboard.RowValueBits | main.js:107-121 | In the mask updateGrid builds, bit c is set exactly when column c is stopped. |
| Bitboard.RowValueStep | main.js:111-116 | One column step of updateGrid: OR-ing `1n << c` for a stopped column extends the mask of the first c columns to c + 1. |
| Bitboard.RowValueFits | main.js:107-121 | A mask built from a row's 16 flags is below 2^16. |
| Bitboard.ProbeIsWindow | main.js:70-79 | With 16-bit masks, the joined padded hex digits read back as the four masks stacked, the top row most significant. |
| Bitboard.ProbeIsSum | main.js:70-79 | The probe equals `mask(pos)*2^48 + mask(pos+1)*2^32 + mask(pos+2)*2^16 + mask(pos+3)`, where rows past the grid count as 0xFFFF. |
| Bitboard.CollidingIsCollision | main.js:66-81 | On 16-bit masks, the string probe AND the piece equals the arithmetic window AND the piece. |
| Bitboard.WindowBit | main.js:70-79 | Bit k of the window is bit k % 16 of grid row `pos + 3 - k / 16`; the window has no bit at or above 64. |
| Bitboard.CollisionOverlap | main.js:66-81 | isColliding(p) is nonzero if and only if p covers some cell (r, c) whose row mask has bit c set (both directions). |
| Bitboard.CollisionIff | main.js:66-81 | isColliding(p) is nonzero if and only if, for some shape row i, the grid row under it and that shape row share a bit (both directions). |
| Bitboard.FloorStops | main.js:74-76 | A piece with a non-empty shape row on or past the full floor row always collides. |
| Bitboard.CoversAboveFloor | main.js:147 | A piece above the floor covers no cell of the floor row. |
| Bitboard.NoCollisionAboveFloor | main.js:147 | A piece that does not collide is above the floor. |
| Bitboard.MoveAboveFloor | main.js:124-140 | fakeMove keeps a piece above the floor. |
| Bitboard.SpawnFallsOnEmptyGrid | main.js:58-81 | On the starting grid, every spawned piece can fall one row: `isColliding()` is 0. |
| Bitboard.GuardIff | main.js:127-134 | `guard & value` is 0 if and only if the shifted value has no bit in column 15 (`0x8000800080008000`) or column 0 (`0x1000100010001`) of any row. |
| Bitboard.NudgeCommits | main.js:124-140 | The shifted value is committed exactly when it clears the guard column and does not collide at the current row; otherwise the value is kept. |
| Bitboard.NudgeEdgeFree | main.js:124-140 | An edge-free value stays edge-free under the move. The result is the old value, twice it, or half it with no bit lost. |
| Bitboard.ShiftRightEdgeFree | main.js:126-127 | `<< 1` of an edge-free value that passes the column-15 guard is edge-free. |
| Bitboard.ShiftLeftEdgeFree | main.js:133-134 | `>> 1` of an edge-free value that passes the column-0 guard is edge-free and drops no bit. |
| Bitboard.ShiftMovesOneColumn | main.js:126-133 | On an edge-free piece, `<< 1` moves every covered cell one column right and `>> 1` one column left, in the same grid row. |
| Bitboard.WallBitWraps | main.js:133-136 | Without edge-freeness the left guard lets a cell in column 0 through, and it reappears in column 15 of the row below. |
| Game.Trix.constructor | main.js:27-52 | Rows 0..30 have mask 0, no stopped cell and no colour. Row 31 is full, stopped and red. A piece is spawned. The state is `Valid()`. |
| Game.Trix.GetPiece | main.js:58-63 | The piece is the chosen template at row 0. It is edge-free and above the floor one row down. |
| Game.Trix.UpdateGrid | main.js:107-121 | Every row above the floor gets the mask of its stopped flags (bit c iff column c stopped). Its non-stopped cells turn black. The floor row and stopped flags are unchanged. The grid invariant is kept. |
| Game.Trix.CleanRow | main.js:109-119 | One row: the mask is the OR over its stopped columns, below 2^16; exactly its non-stopped cells turn black. |
| Game.Trix.UpdatePiece | main.js:84-103 | Every cell the piece covers (rows 0..31) takes its colour, and with `stop` becomes stopped. Nothing else changes. Without `stop`, pos grows by one. |
| Game.Trix.DrawRow | main.js:86-98 | One slot: exactly the covered cells of grid row `pos + 3 - slot` are painted (and stopped with `stop`). |
| Game.Trix.Colliding | main.js:66-81 | `isColliding()` with no argument equals the arithmetic collision of the piece one row down. |
| Game.Trix.FakeMove | main.js:124-140 | The new value is `Nudge` of the old piece. Edge-freeness and being above the floor are preserved. |
| Game.Trix.Descend | main.js:144-146 | After updateGrid, updatePiece(false) and fakeMove: masks rebuilt; pos + 1 with the nudged value; stopped flags unchanged; the piece edge-free and above the floor. |
| Game.Trix.Run | main.js:143-151 | One tick keeps `Valid()`. It lands exactly when the moved piece collides one row down. A landed piece's cells are all above the floor and become stopped and painted, and the next piece is the spawn. Otherwise the piece stays one row lower with the nudged value. Stopped flags only grow. Masks reflect the entry's stopped flags. |

## Left out

- The DOM is not modelled: creating and appending the row and cell `div`s, class names and layout. The grid is the arrays of `Trix`.
- The animation loop is not modelled: `requestAnimationFrame`, the 100 ms throttle of `loop`, and the first `getPiece(); loop(...)` call. `Run` models one tick, and the constructor includes the first spawn.
- `Math.random` is not modelled. The template and rotation chosen by `getPiece` and the direction chosen by `fakeMove` are parameters (`kind`, `rot`, `dir`).
- The number literals are taken as exact. The PIECES values and the guard literals are JavaScript numbers converted with `BigInt(...)`, and each has at most 49 significant bits, so the conversion is exact.
- Colours are plain strings. The browser's normalisation of `style.backgroundColor` (for example `#FF0000` read back as `rgb(255, 0, 0)`) is not modelled. A cell never painted has the empty string.
- Rows 0..30 start with mask 0 in the constructor. In the page their `value` is undefined until the first `updateGrid`, which `run` always calls before any probe, and which sets exactly these values.
- `isColliding(p)` with an explicit argument is modelled as `IsColliding` on a piece. The method `Trix.Colliding` models only the no-argument call.
- Scoring, line clearing and game over do not exist in the program. A new piece is spawned at row 0 without any collision check, and the model does the same.
- Game.Trix.FakeMove: preserving edge-freeness and being above the floor is stated only for a piece that had them on entry. The method itself accepts any piece, as the source does.
- The guards of `fakeMove` read as a wall test, but the code tests the value after the shift. So they stop a piece from entering column 0 or 15; they do not hold back a piece that is already there. The model follows the code. `Bitboard.WallBitWraps` shows what the guard lets through for a piece with a cell in column 0, and `Valid()` rules that state out for every piece the program creates.
