/** Values shared by the tick engine and the board initializer: cell flags,
    inputs, and the whole game state that the C program keeps in a cells
    array, a snake struct and two globals. */
module Common {

  /** The flag held by one board cell. */
  datatype Cell = Plain | Wall | Snake | Food

  /** One input per tick; `NoInput` means "keep the stored direction". */
  datatype Input = Left | Right | Up | Down | NoInput

  /** Everything one tick reads and writes.
      - `cells`: the board, row-major, `width * height` flags;
      - `body`: the snake's cell indices, head first;
      - `dir`: the stored direction of the snake;
      - `gameOver`, `score`: the two global status variables. */
  datatype State = State(
    cells: seq<Cell>,
    width: nat,
    height: nat,
    body: seq<int>,
    dir: Input,
    gameOver: bool,
    score: int)
}
