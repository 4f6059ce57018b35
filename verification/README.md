# Snake game core in Dafny

A model of the core of a terminal snake game written in C. The game keeps a
row-major board of cell flags (plain, wall, snake, food), a snake stored as a
list of cell indices with the head first, a stored direction, and two global
status variables: game over and score. The model covers three parts.

- **The tick engine** (`game.dfy`, module `Game`):
  - `NextPosition` computes the next position.
  - `Update` is the one-tick transition. It covers wall collision, eating,
    the self-collision walk with its reversal and tail-following rules, and
    the plain move.
  - `PlaceFood` places food by rejection sampling.
- **Board initialisation** (`game_setup.dfy`, module `GameSetup`):
  - `InitializeDefaultBoard` builds the built-in 20x10 board.
  - `Decompress` decodes the run-length board text `B<height>x<width>|<row>|...`.
    It lexes the text into runs (down to `strtok`, `first_letter` and
    `get_integer`). `DecodeRuns` then checks the runs and writes the board.
  - `InitializeGame` ties the two together.
- **Code-point counting** (`mbstrings.dfy`, module `MbStrings`): `Mbslen`
  counts the code points of a UTF-8 string, or returns -1.

Shared types live in `common.dfy` (`Cell`, `Input`, `State`). `util.dfy`
holds `Option`/`Result` and small sequence helpers.

The C program mutates the board, the list and two globals. Here every
operation is a pure function, or a method with real out-parameters, from the
old state to the new one.

The C library's `rand()` is the one source of nondeterminism. It becomes a
parameter `draws`: the successive values `rand()` would return. Each
food-placement attempt looks at cell `draw % (width * height)`. The C code
retries until it hits a plain cell. The model instead returns `None` when the
given draws run out first.

Each operation has an independent partner that its lemmas connect it to:

- Self-collision walk: the walk's depth equals the first index of the target
  in the body, minus one (`WalkFindsFirstOccurrence`).
- Board decoder: reference definitions by the last run (`Sum`, `SnakeSum`,
  `Expand`, `SnakePositions`) fix exactly when it succeeds, what it builds,
  and which error wins: the first rejected run's check
  (`DecodeErrorOrder`), else the cell total before the snake count
  (`DecodeFinalChecks`).
- `get_integer`, `strtok` and the row lexer: printers (`Decimal`, `Join`,
  `EncodeRuns`, `BoardText`) are their inverses, from one row up to a whole
  board text (`BoardTextRoundTrip`).
- `mbslen`:
  - a grammar (`ValidChunks`) and an independent count (`LeadCount`, the
    bytes that are not continuation bytes);
  - a UTF-8 encoder (`Encode`) whose output the decoder counts back.

## Behaviour modelled as written

These points follow the C code, not the rules as usually stated for the game.

- **Following the tail.**
  - Rule as usually stated: a snake of length three or more may move into the
    cell its tail is leaving.
  - Code: the walk of `update` allows this only when it reaches depth 2, that
    is when the tail is body index 3 or later, so the snake needs four
    entries. A target at body index 1 or 2 is always treated as a reversal.
  - Lemmas: `UpdateFollowsTail`, `UpdateReversal`.
- **Tail-following leaves the head's cell PLAIN.** The target is written
  SNAKE first, and then the vacated tail cell is written PLAIN. When the two
  are the same cell, it ends up PLAIN (`UpdateFollowsTail`).
- **Reversal.**
  - When the target is one of the two segments right behind the head, the
    snake steps in its stored direction instead.
  - The flag of the replacement cell is never inspected, so a wall or food
    there is overwritten with SNAKE (`UpdateReversal`).
  - The rejected input is still stored as the new direction (see the ensures
    of `Update`).
- **Strtok delimiters.**
  - The first row is cut at `|` only.
  - Every later row is cut at any of `|`, `\` and `n`, because the C string
    literal `"|\\n"` holds those three characters.
  - So an `n` splits a later row, while the same `n` in the first row becomes
    a run with letter `n` (`LaterRowsSplitAtN`, `FirstRowKeepsN`,
    `FirstRowNLexes`).
- **A run `S0` after the `S1` run** passes every check and still adds the
  body entry `total - 1`, the last cell written so far, which becomes the
  head. When the `S0` directly follows the `S1`, that is the snake cell, so
  `S1S0` gives the body [0, 0] (`ZeroSnakeRunDuplicatesHead`). Otherwise it is
  a plain or wall cell: on a 1x4 board `S1E3S0` gives the body [3, 0]
  (`ZeroSnakeRunHeadsPlainCell`).
- **An empty count reads as 0**, because `atoi` of the empty string is 0.
- **Loose UTF-8 check.** `mbslen` checks only the lead-byte classes and the
  continuation-byte pattern. Overlong forms, surrogates and lead bytes F5-F7
  are accepted, as the code does.

## Model

| member | source | states |
|---|---|---|
| Game.NextPosition | src/game.c:11-52 | The next cell is one step left, right, up or down in the effective direction: the explicit input if there is one, else the stored direction. |
| Game.NoInputFollowsDirection | src/game.c:28-47 | With no input, the step equals an explicit step in the stored direction. |
| Game.ExplicitInputIgnoresDirection | src/game.c:15-27 | With an explicit input, the stored direction has no influence on the step. |
| Game.OppositeStepReturns | src/game.c:15-27 | A step followed by the opposite step returns to the start cell. |
| Game.Aim | src/game.c:75-89 | On a board whose head is not on the edge, the aimed cell lies on the board and differs from the head. |
| Game.Walk | src/game.c:113-134 | The walk stops at the first depth whose pair of consecutive segments contains the target. No earlier pair does. None means no pair does. |
| Game.WalkFindsFirstOccurrence | src/game.c:111-134 | The walk's depth is the first body index of the target minus one, or 0 when it is the head. It is None when the target is not in the body. |
| Game.PlaceFood | src/game.c:171-180 | Placement succeeds iff some draw hits a plain cell. The first such draw's cell, and only it, turns from plain to food. |
| Game.Resolve | src/game.c:111-148 | A one-segment snake moves to the aimed cell. Otherwise the target is the aimed cell or one step in the stored direction, and lies on the board. |
| Game.AfterMeal | src/game.c:96-106 | Eating writes SNAKE at the food cell. A non-growing snake also vacates its old head cell. Every other cell is unchanged. |
| Game.Update | src/game.c:64-162 | A tick keeps the board size. It stores any explicit input as the direction. It keeps a non-empty body inside the board. It raises the score by at most one and never clears game over. It fails only when food is eaten and the draws run out. |
| Game.Advance | src/game.c:152-157 | A plain move puts the target at the head and drops the tail. The tail cell ends PLAIN, the target SNAKE when it is another cell; no other cell or field changes. |
| Game.UpdateAfterGameOver | src/game.c:80-86 | Once the game is over a tick changes nothing but the stored direction. |
| Game.UpdateIntoWall | src/game.c:91-94 | Aiming at a wall ends the game and leaves board, body and score unchanged. |
| Game.UpdateOntoFoodCompletes | src/game.c:96-107 | Aiming at food completes the tick iff some draw lands on a cell that is plain once the meal is eaten. |
| Game.UpdateOntoFood | src/game.c:96-107 | Eating raises the score by one and puts the food cell at the head. A growing snake keeps its body; otherwise the old head is replaced and vacated. Exactly one cell that is plain after the meal becomes food. |
| Game.SingleSegmentNeverCollides | src/game.c:111-157 | A one-segment snake aiming at a plain or snake cell moves there and its body becomes that one cell. |
| Game.UpdateFreeMove | src/game.c:109-157 | Aiming at a non-wall, non-food cell outside the body moves the snake there. Head in, tail out, nothing else changes, the game goes on. |
| Game.UpdateSelfCollision | src/game.c:117-126 | Aiming at body index 3 or later, other than the tail, ends the game with board, body and score unchanged. |
| Game.UpdateFollowsTail | src/game.c:119-157 | Aiming at the tail found at index 3 or later is a legal move, and the new head's cell ends up PLAIN. |
| Game.UpdateReversal | src/game.c:128-157 | Aiming at body index 1 or 2 moves the snake one step in its stored direction instead. |
| GameSetup.InitializeDefaultBoard | src/game_setup.c:33-60 | The default board is 20x10. Walls cover the border, the snake is at cell 42, and every other cell is plain. |
| GameSetup.FirstLetter | src/game_setup.c:109-113 | The scan stops at the first non-digit at or after the start, or at the end. Everything it skips is a digit. |
| GameSetup.GetInteger | src/game_setup.c:125-130 | The value of at most nine digits is below 10 to the number of digits. |
| GameSetup.GetIntegerRoundTrip | src/game_setup.c:125-130 | Reading the decimal text of any number below 10^9 gives the number back. |
| GameSetup.GetIntegerLeadingZero | src/game_setup.c:125-130 | A leading zero does not change the value read, so together with the round trip every digit string's value is fixed. |
| GameSetup.StrTok | src/game_setup.c:177-179 | No token remains iff the text is all delimiters. Otherwise the token is the first maximal stretch of non-delimiters after the leading delimiters, and the rest is what follows the one delimiter that ends it (nothing at the end of the text). |
| GameSetup.StrTokSplit | src/game_setup.c:177-179 | A non-empty token free of delimiters, followed by a delimiter or by the end, is exactly what strtok returns. |
| GameSetup.Rows | src/game_setup.c:177-179 | Every row token is non-empty and holds no bar character. |
| GameSetup.LaterRows | src/game_setup.c:236 | Every later row token is non-empty and holds none of bar, backslash and `n`. |
| GameSetup.RowsJoin | src/game_setup.c:177-179 | Rows joined with one bar between neighbours split back into the same rows, when every row is non-empty, none holds a bar, and none after the first holds a backslash or `n`. |
| GameSetup.LaterRowsJoin | src/game_setup.c:236 | Later rows joined with bars, none holding a later delimiter, split back into the same rows. |
| GameSetup.LaterRowsSplitAtN | src/game_setup.c:236 | In a later row, `E2nW1` splits into the tokens `E2` and `W1`. |
| GameSetup.FirstRowKeepsN | src/game_setup.c:179 | In the first row, `E2nW1` stays one token. |
| GameSetup.FirstRowNLexes | src/game_setup.c:189-200 | The first-row token `E2nW1` lexes as the runs E2, n0, W1. |
| GameSetup.LexRow | src/game_setup.c:191-200 | A non-empty row gives at least one run, the first with the row's first character as letter. |
| GameSetup.LexRowRoundTrip | src/game_setup.c:191-233 | Lexing the text of a run sequence gives the runs back when no letter is a digit. |
| GameSetup.LexRows | src/game_setup.c:189-237 | Rows that are all non-empty give at least one run each; the first run's letter is the first row's first character. |
| GameSetup.LexRowsRoundTrip | src/game_setup.c:189-237 | Lexing the run texts of several rows gives all their runs, row after row. |
| GameSetup.HeaderHeight | src/game_setup.c:154-157 | The height is the number between `B` and the first `x`, below 10^9. |
| GameSetup.HeaderWidth | src/game_setup.c:151-159 | The width is the number between the first `x` and the first bar, below 10^9. |
| GameSetup.HeaderLayout | src/game_setup.c:151-159 | In a printed header followed by any text, the first `x` and the first bar are the header's own, and the numbers lie between them. |
| GameSetup.HeaderBars | src/game_setup.c:161-168 | A printed header adds exactly one bar to the count of whatever text follows it. |
| GameSetup.HeaderRoundTrip | src/game_setup.c:151-159 | Height and width read back as the numbers printed in the header, whatever follows it. |
| GameSetup.RowsTextRoundTrip | src/game_setup.c:177-237 | The rows part of a board text holds one bar fewer than it has rows, and splits and lexes back into the rows' runs. |
| GameSetup.BoardTextRoundTrip | src/game_setup.c:151-237 | For a printed board text: the header reads back as printed, the bar count is the number of rows (at least one), and the runs read are all the rows' runs in order. |
| GameSetup.DecompressBoardText | src/game_setup.c:146-249 | Decoding a printed board text is deciding its runs with the printed height, width and row count. |
| GameSetup.ScanRuns | src/game_setup.c:201-231 | An accepted scan writes one cell per counted cell. Its snake count grows by no more than its cell count. Errors are never success. |
| GameSetup.ScanStep | src/game_setup.c:201-231 | Accepting one run moves the scan from the reference state of the runs before it to the reference state including it. |
| GameSetup.ScanAccepts | src/game_setup.c:201-231 | The scan accepts iff every run passes the three checks. It then ends in the reference state: total, snake count, expanded board, snake positions. |
| GameSetup.ScanRejects | src/game_setup.c:203-226 | The first rejected run decides the error. Too many cells beats a bad letter, which beats a wrong snake count. |
| GameSetup.ScanSucceedsIff | src/game_setup.c:201-246 | The scan ends with exactly the area and one snake cell iff letters are valid, the snake rule holds, and the sums match. |
| GameSetup.ZeroSnakeRunDuplicatesHead | src/game_setup.c:213-222 | The runs S1 S0 E1 on a 2-cell board are accepted, with body [0, 0]. |
| GameSetup.ZeroSnakeRunHeadsPlainCell | src/game_setup.c:213-246 | On a 1x4 board the runs S1 E3 S0 decode successfully with cells snake, plain, plain, plain and body [3, 0]: the head is a plain cell. |
| GameSetup.DecodeRuns | src/game_setup.c:169-248 | Once the text is lexed: a decoded board has the header's size, width*height cells (at least one) and direction Right. A count of bar characters other than the height is IncorrectDimensions. Errors are never success. |
| GameSetup.Decompress | src/game_setup.c:146-249 | A decoded board has the header's size, width*height cells and direction Right. A wrong count of bar characters is IncorrectDimensions. Errors are never success. |
| GameSetup.DecodeSucceedsIff | src/game_setup.c:169-246 | Decoding the lexed runs succeeds iff: the count of bar characters equals the height; every letter is W, E or S; the runs cover exactly the area; one cell is a snake cell; the snake count is one after every S run. |
| GameSetup.DecodeContents | src/game_setup.c:208-231 | A decoded board is the runs expanded flag by flag. Its body has one entry per S run: the run's last cell, latest first. |
| GameSetup.DecodeErrorOrder | src/game_setup.c:201-226 | With the right count of bar characters, the first rejected run's check decides the error. |
| GameSetup.DecodeFinalChecks | src/game_setup.c:239-246 | When every run is accepted: a cell total other than the area is IncorrectDimensions, and with the full area a snake count other than one (no S run, say) is WrongSnakeNum. |
| GameSetup.ExpandCovering | src/game_setup.c:227-231 | Each cell covered by run k holds run k's flag, at offset Sum(runs before k). |
| GameSetup.DecodeOneSnakeCell | src/game_setup.c:213-246 | A decoded board holds exactly one SNAKE cell. |
| GameSetup.InitializeGame | src/game_setup.c:74-100 | Without text the status is success, and a game is produced exactly when some draw lands on a plain cell of the default board; it is the 20x10 board with snake [42], direction Right, food on one plain cell, and playable. With text the status is the decoder's; on success a game is produced exactly when some draw lands on a plain cell of the decoded board, and it keeps the decoded size and body with food on one plain cell. Any game starts with game over and score 0. |
| GameSetup.DefaultFirstTick | src/game_setup.c:86-93 | On the default board with food not at 43, the first tick without input moves the snake from 42 to 43. |
| MbStrings.Mbslen | src/mbstrings.c:30-65 | NULL gives -1. A string in the chunk grammar gives its count of non-continuation bytes. Any other string gives -1. |
| MbStrings.LeadCountChunk | src/mbstrings.c:54-61 | One chunk, a lead byte plus its continuation bytes, counts as one code point. |
| MbStrings.ValidChunksAppend | src/mbstrings.c:38-62 | After a string of whole chunks the grammar restarts: the joined string is valid iff the second part is. |
| MbStrings.ConcatCounts | src/mbstrings.c:38-62 | Joining two valid strings gives a valid string whose code points add up. |
| MbStrings.AsciiLength | src/mbstrings.c:42-43 | A string of 7-bit bytes is valid, with one code point per byte. |
| MbStrings.BadLeadRejected | src/mbstrings.c:50-51 | A string starting with a continuation byte or a byte 11111xxx is invalid. |
| MbStrings.EncodeOne | src/mbstrings.c:20-26 | The UTF-8 encoding of one code point is one chunk: valid, one code point, NUL-free unless U+0000. |
| MbStrings.EncodeAllRoundTrip | src/mbstrings.c:8-17 | Encoding any list of non-NUL code points gives a NUL-free, valid string. Its code-point count is the list's length. |

## Left out

- `read_name` (terminal input) and `teardown` (freeing memory) are I/O and
  memory management. They have no state to model.
- The linked list behind the snake is modelled as a sequence. Allocation
  failure is not modelled.
- `generate_index` and `rand()` are not part of this model. Their values come
  in as the `draws` parameter.
- Game.PlaceFood: the C code retries without bound. The model stops with
  `None` when the finite `draws` run out, so `Update` and `InitializeGame`
  end without a result exactly when no draw lands on a plain cell.
- Game.Update: the score is an unbounded integer. The 32-bit wrap-around of
  the C `int` score is not modelled.
- Game.Playable: requires a stored direction other than NoInput while the
  game runs. The C code would read an unset direction otherwise; reachable
  states never have one.
- Game.Playable: requires all four neighbours of the head on the board. The C
  code assumes a wall border and indexes the board unchecked.
- GameSetup.DecompressPre: requires the header `B<digits>x<digits>|` to be
  present. The C code dereferences the results of `strstr` without a NULL
  check.
- GameSetup.DecompressPre: requires no run of ten or more digits anywhere in
  the text, which is stronger than needed. The C code copies numbers into a
  ten-byte buffer, which a ten-digit number leaves unterminated.
- GameSetup.DecompressPre: requires every character to be one non-NUL byte
  (code 1 to 255). Each character stands for one byte of the C string, so a
  NUL would end the text early and a wider character has no single-byte form.
- GameSetup.DecompressPre: requires width*height + 999999999 to fit a
  32-bit int, so neither the area nor the running cell total overflows.
- GameSetup.GetInteger: requires at most nine digits, for the same buffer.
- MbStrings.Mbslen: returns -1 as an integer. The C function returns
  `size_t`, so callers see SIZE_MAX.
- MbStrings.Mbslen: takes the bytes before the terminator and requires them
  NUL-free. A C string ends at its first NUL.
- The game loop, rendering and the curses front end are not part of this
  model.
