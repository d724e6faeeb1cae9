/** The playing field of the light-cycle game: the fixed 120 x 90 cell matrix,
    the four headings, and the collision oracle that every move consults.
    The matrix is kept in two forms: the `array2` the game state owns and
    updates in place, and a value `Board` (a sequence of columns) that the
    specification functions of the other modules reason about. */
module Board {

  const GAME_WIDTH: nat := 120
  const GAME_HEIGHT: nat := 90
  const PLAYER_COUNT: nat := 4
  const STEP_RATE_IN_MILLISECONDS: nat := 45

  /** One square of the matrix. `Trail(id)` is the trail of the player whose
      id is `id` (ids run from 1 to 4); `Dead` marks the trail of a crashed player. */
  datatype Cell = Nothing | Trail(owner: int) | Dead

  /** The headings, in the order the computer heuristic enumerates them. */
  datatype Direction = Right | Up | Left | Down

  function Index(d: Direction): nat {
    match d
    case Right => 0
    case Up => 1
    case Left => 2
    case Down => 3
  }

  function FromIndex(i: nat): (d: Direction)
    requires i < 4
    ensures Index(d) == i
  {
    if i == 0 then Right else if i == 1 then Up else if i == 2 then Left else Down
  }

  /** The 180-degree reverse of a heading: two quarter turns away. */
  function Opposite(d: Direction): (r: Direction)
    ensures r != d
    ensures Index(r) == (Index(d) + 2) % 4
  {
    match d
    case Right => Left
    case Up => Down
    case Left => Right
    case Down => Up
  }

  /** Horizontal and vertical increments of one move; the y axis grows downwards. */
  function Dx(d: Direction): int {
    match d
    case Right => 1
    case Left => -1
    case _ => 0
  }

  function Dy(d: Direction): int {
    match d
    case Up => -1
    case Down => 1
    case _ => 0
  }

  /** The coordinates `k` moves away from (x, y) heading `d`. */
  function StepX(x: int, d: Direction, k: int): int {
    match d
    case Right => x + k
    case Left => x - k
    case _ => x
  }

  function StepY(y: int, d: Direction, k: int): int {
    match d
    case Up => y - k
    case Down => y + k
    case _ => y
  }

  predicate InBounds(x: int, y: int) {
    0 <= x < GAME_WIDTH && 0 <= y < GAME_HEIGHT
  }

  /** The matrix as a value, indexed `b[x][y]` like the source's `matrix[x][y]`. */
  type Board = seq<seq<Cell>>

  predicate IsBoard(b: Board) {
    |b| == GAME_WIDTH && forall x :: 0 <= x < GAME_WIDTH ==> |b[x]| == GAME_HEIGHT
  }

  /** Value form of the collision test: off the board, or on a cell that is
      not empty. */
  predicate Blocked(b: Board, x: int, y: int)
    requires IsBoard(b)
  {
    !InBounds(x, y) || b[x][y] != Nothing
  }

  function EmptyBoard(): (b: Board)
    ensures IsBoard(b)
    ensures forall x, y :: 0 <= x < GAME_WIDTH && 0 <= y < GAME_HEIGHT ==> b[x][y] == Nothing
  {
    seq(GAME_WIDTH, _ => seq(GAME_HEIGHT, _ => Nothing))
  }

  /** The board after player `id` claims cell (x, y). */
  function Mark(b: Board, x: int, y: int, id: int): (r: Board)
    requires IsBoard(b) && InBounds(x, y)
    ensures IsBoard(r)
  {
    b[x := b[x][y := Trail(id)]]
  }

  /** What happens to one cell when player `id` crashes. */
  function Killed(c: Cell, id: int): Cell {
    if c == Trail(id) then Dead else c
  }

  /** The board after every cell of player `id` has been turned into `Dead`. */
  function KillTrail(b: Board, id: int): (r: Board)
    requires IsBoard(b)
    ensures IsBoard(r)
    ensures forall x, y :: 0 <= x < GAME_WIDTH && 0 <= y < GAME_HEIGHT ==> r[x][y] == Killed(b[x][y], id)
  {
    seq(GAME_WIDTH, x requires 0 <= x < GAME_WIDTH =>
      seq(GAME_HEIGHT, y requires 0 <= y < GAME_HEIGHT => Killed(b[x][y], id)))
  }

  predicate IsMatrix(m: array2<Cell>) {
    m.Length0 == GAME_WIDTH && m.Length1 == GAME_HEIGHT
  }

  /** The current contents of the matrix, as a value. */
  ghost function Snapshot(m: array2<Cell>): (b: Board)
    reads m
    requires IsMatrix(m)
    ensures IsBoard(b)
    ensures forall x, y :: 0 <= x < GAME_WIDTH && 0 <= y < GAME_HEIGHT ==> b[x][y] == m[x, y]
  {
    seq(GAME_WIDTH, x requires 0 <= x < GAME_WIDTH reads m =>
      seq(GAME_HEIGHT, y requires 0 <= y < GAME_HEIGHT reads m => m[x, y]))
  }

  /** A matrix agreeing cell by cell with a board has that board as its snapshot. */
  lemma SnapshotOf(m: array2<Cell>, b: Board)
    requires IsMatrix(m) && IsBoard(b)
    requires forall x, y :: 0 <= x < GAME_WIDTH && 0 <= y < GAME_HEIGHT ==> m[x, y] == b[x][y]
    ensures Snapshot(m) == b
  {
    var s := Snapshot(m);
    forall x | 0 <= x < GAME_WIDTH
      ensures s[x] == b[x]
    {
      assert |s[x]| == |b[x]|;
      forall y | 0 <= y < GAME_HEIGHT
        ensures s[x][y] == b[x][y]
      {
      }
    }
  }

  // The collision oracle, on the matrix as the game state holds it.

  predicate CollidesWithWall(x: int, y: int) {
    x < 0 || x >= GAME_WIDTH || y < 0 || y >= GAME_HEIGHT
  }

  /** Only defined on the board: the matrix must never be read out of bounds. */
  predicate CollidesWithPlayer(m: array2<Cell>, x: int, y: int)
    reads m
    requires IsMatrix(m) && InBounds(x, y)
  {
    m[x, y] != Nothing
  }

  /** A wall or any trail; the wall test comes first, so the matrix lookup is
      only made for a cell on the board. */
  function IsCollision(m: array2<Cell>, x: int, y: int): (r: bool)
    reads m
    requires IsMatrix(m)
    ensures r <==> !InBounds(x, y) || m[x, y] != Nothing
    ensures r == Blocked(Snapshot(m), x, y)
  {
    if CollidesWithWall(x, y) then true
    else CollidesWithPlayer(m, x, y)
  }
}
