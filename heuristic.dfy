/** The computer players' heuristic: measure the run of free cells straight
    ahead in each heading, and take the heading with the longest run. */
module Heuristic {
  import opened Board

  /** How many more moves heading `d` can stay on the board from (x, y); it
      shrinks by one with every move that lands on the board. */
  function Room(x: int, y: int, d: Direction): nat {
    match d
    case Right => if x < GAME_WIDTH then GAME_WIDTH - x else 0
    case Left => if x >= 0 then x + 1 else 0
    case Up => if y >= 0 then y + 1 else 0
    case Down => if y < GAME_HEIGHT then GAME_HEIGHT - y else 0
  }

  /** The number of free cells one after another from (x, y) heading `d`,
      not counting (x, y) itself. */
  function Run(b: Board, x: int, y: int, d: Direction): nat
    requires IsBoard(b)
    decreases Room(StepX(x, d, 1), StepY(y, d, 1), d)
  {
    var nx, ny := StepX(x, d, 1), StepY(y, d, 1);
    if Blocked(b, nx, ny) then 0 else 1 + Run(b, nx, ny, d)
  }

  /** The run is exactly what its name says: the first `Run` cells ahead are
      on the board and empty, and the next one is a wall or a trail. */
  lemma {:induction false} RunAhead(b: Board, x: int, y: int, d: Direction)
    requires IsBoard(b)
    ensures forall k :: 1 <= k <= Run(b, x, y, d) ==> InBounds(StepX(x, d, k), StepY(y, d, k)) && b[StepX(x, d, k)][StepY(y, d, k)] == Nothing
    ensures Blocked(b, StepX(x, d, Run(b, x, y, d) + 1), StepY(y, d, Run(b, x, y, d) + 1))
    decreases Room(StepX(x, d, 1), StepY(y, d, 1), d)
  {
    var nx, ny := StepX(x, d, 1), StepY(y, d, 1);
    if !Blocked(b, nx, ny) {
      RunAhead(b, nx, ny, d);
      forall k | 2 <= k <= Run(b, x, y, d) + 1
        ensures StepX(x, d, k) == StepX(nx, d, k - 1) && StepY(y, d, k) == StepY(ny, d, k - 1)
      {
      }
    }
  }

  /** Conversely, any count with that property is the run. */
  lemma RunUnique(b: Board, x: int, y: int, d: Direction, n: nat)
    requires IsBoard(b)
    requires forall k :: 1 <= k <= n ==> !Blocked(b, StepX(x, d, k), StepY(y, d, k))
    requires Blocked(b, StepX(x, d, n + 1), StepY(y, d, n + 1))
    ensures n == Run(b, x, y, d)
  {
    RunAhead(b, x, y, d);
  }

  /** Counts the free cells ahead by walking until the first collision. */
  method GetPathLength(m: array2<Cell>, x: int, y: int, d: Direction) returns (pathLength: nat)
    requires IsMatrix(m)
    ensures pathLength == Run(Snapshot(m), x, y, d)
  {
    ghost var b := Snapshot(m);
    var xIncrement, yIncrement := Dx(d), Dy(d);
    var cx, cy := x + xIncrement, y + yIncrement;
    var collision := IsCollision(m, cx, cy);
    pathLength := 0;
    while !collision
      invariant cx == StepX(x, d, pathLength + 1) && cy == StepY(y, d, pathLength + 1)
      invariant forall k :: 1 <= k <= pathLength ==> !Blocked(b, StepX(x, d, k), StepY(y, d, k))
      invariant collision == Blocked(b, cx, cy)
      decreases Room(cx, cy, d)
    {
      pathLength := pathLength + 1;
      cx, cy := cx + xIncrement, cy + yIncrement;
      collision := IsCollision(m, cx, cy);
    }
    RunUnique(b, x, y, d, pathLength);
  }

  /** One round of the heuristic's loop: the reverse of the current heading is
      skipped, and a heading replaces the best so far only with a strictly
      longer run. */
  function Consider(b: Board, x: int, y: int, curr: Direction, i: nat, best: (Direction, nat)): (Direction, nat)
    requires IsBoard(b) && i < 4
  {
    var d := FromIndex(i);
    if d == Opposite(curr) then best
    else
      var run := Run(b, x, y, d);
      if run > best.1 then (d, run) else best
  }

  /** The heading chosen and the longest run found after the first `n` rounds. */
  function Scan(b: Board, x: int, y: int, curr: Direction, n: nat): (Direction, nat)
    requires IsBoard(b) && n <= 4
  {
    if n == 0 then (curr, 0) else Consider(b, x, y, curr, n - 1, Scan(b, x, y, curr, n - 1))
  }

  /** The heading the heuristic picks. */
  function BestDir(b: Board, x: int, y: int, curr: Direction): Direction
    requires IsBoard(b)
  {
    Scan(b, x, y, curr, 4).0
  }

  /** What the pick means: when every allowed heading is blocked at once the
      current heading is kept; otherwise the pick is an allowed heading whose
      run is positive and longest, and no allowed heading earlier in the order
      Right, Up, Left, Down has as long a run. */
  ghost predicate IsPick(b: Board, x: int, y: int, curr: Direction, r: Direction)
    requires IsBoard(b)
  {
    if forall d :: d != Opposite(curr) ==> Run(b, x, y, d) == 0 then
      r == curr
    else
      && r != Opposite(curr)
      && Run(b, x, y, r) > 0
      && (forall d :: d != Opposite(curr) ==> Run(b, x, y, d) <= Run(b, x, y, r))
      && (forall d :: d != Opposite(curr) && Index(d) < Index(r) ==> Run(b, x, y, d) < Run(b, x, y, r))
  }

  /** What the loop has established after `n` rounds. */
  lemma {:induction false} ScanInvariant(b: Board, x: int, y: int, curr: Direction, n: nat)
    requires IsBoard(b) && n <= 4
    ensures var (r, longest) := Scan(b, x, y, curr, n);
      && (forall d :: Index(d) < n && d != Opposite(curr) ==> Run(b, x, y, d) <= longest)
      && (longest == 0 ==> r == curr)
      && (longest > 0 ==>
            && r != Opposite(curr) && Index(r) < n && Run(b, x, y, r) == longest
            && forall d :: Index(d) < Index(r) && d != Opposite(curr) ==> Run(b, x, y, d) < longest)
  {
    if n > 0 {
      ScanInvariant(b, x, y, curr, n - 1);
      var d := FromIndex(n - 1);
      forall e | Index(e) < n
        ensures Index(e) < n - 1 || e == d
      {
      }
    }
  }

  /** The heuristic's pick satisfies `IsPick`; in particular it never reverses. */
  lemma BestDirIsPick(b: Board, x: int, y: int, curr: Direction)
    requires IsBoard(b)
    ensures IsPick(b, x, y, curr, BestDir(b, x, y, curr))
    ensures BestDir(b, x, y, curr) != Opposite(curr)
  {
    ScanInvariant(b, x, y, curr, 4);
    var (r, longest) := Scan(b, x, y, curr, 4);
    if longest == 0 {
      assert forall d :: d != Opposite(curr) ==> Run(b, x, y, d) == 0;
    } else {
      assert Run(b, x, y, r) > 0 && r != Opposite(curr);
    }
  }

  /** `IsPick` leaves no choice: the heuristic is deterministic. */
  lemma PickUnique(b: Board, x: int, y: int, curr: Direction, r1: Direction, r2: Direction)
    requires IsBoard(b)
    requires IsPick(b, x, y, curr, r1) && IsPick(b, x, y, curr, r2)
    ensures r1 == r2
  {
  }

  /** Picks the next heading of a computer player at (x, y), currently heading
      `curr`. */
  method PickNextDir(m: array2<Cell>, x: int, y: int, curr: Direction) returns (nextDir: Direction)
    requires IsMatrix(m)
    ensures nextDir == BestDir(Snapshot(m), x, y, curr)
  {
    ghost var b := Snapshot(m);
    nextDir := curr;
    var longestPath: nat := 0;
    for i := 0 to 4
      invariant (nextDir, longestPath) == Scan(b, x, y, curr, i)
    {
      var d := FromIndex(i);
      if d == Opposite(curr) {
        continue;
      }
      var currentRun := GetPathLength(m, x, y, d);
      if currentRun > longestPath {
        longestPath := currentRun;
        nextDir := d;
      }
    }
  }
}
