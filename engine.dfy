/** The step engine as values: what one player's move, one tick over all
    player slots, and several ticks do to the board, the player slots and the
    count of players still alive. The game state's methods are proved to act
    exactly as these functions say; the lemmas here state what the moves
    preserve. */
module Engine {
  import opened Board
  import opened Heuristic

  /** A player's display name: "P<n>" for the n-th human, "CPU<n>" for the
      n-th computer, and the empty string of a zeroed slot or winner. */
  datatype Name = NoName | Human(ordinal: nat) | Computer(ordinal: nat)

  /** One player slot: where the head is, the heading of the next move, and
      who the player is. */
  datatype Character = Character(
    headX: int, headY: int, nextDir: Direction, playerId: int,
    name: Name, isHuman: bool, isAlive: bool)

  /** The part of the game state that the step engine reads and writes. */
  datatype World = World(board: Board, slots: seq<Character>, remaining: int)

  /** The slot after its head moves one cell along its heading. */
  function Advance(c: Character): (r: Character)
    ensures r.(headX := c.headX, headY := c.headY) == c
    ensures (r.headX == c.headX) != (r.headY == c.headY)
    ensures r.headX - c.headX == Dx(c.nextDir) && r.headY - c.headY == Dy(c.nextDir)
    ensures r.headX == StepX(c.headX, c.nextDir, 1) && r.headY == StepY(c.headY, c.nextDir, 1)
  {
    c.(headX := c.headX + Dx(c.nextDir), headY := c.headY + Dy(c.nextDir))
  }

  /** The first slot at or after `from` whose player id is `id`, or -1. */
  function FindSlot(slots: seq<Character>, id: int, from: nat): (r: int)
    requires from <= |slots|
    ensures r == -1 <==> forall k :: from <= k < |slots| ==> slots[k].playerId != id
    ensures r != -1 ==> from <= r < |slots| && slots[r].playerId == id
    ensures r != -1 ==> forall k :: from <= k < r ==> slots[k].playerId != id
    decreases |slots| - from
  {
    if from == |slots| then -1
    else if slots[from].playerId == id then from
    else FindSlot(slots, id, from + 1)
  }

  /** A crash of player `id`: the first slot carrying that id dies, one
      fewer player remains, and the player's whole trail turns dead. */
  function AfterCollision(w: World, id: int): (r: World)
    requires IsBoard(w.board)
    requires exists k :: 0 <= k < |w.slots| && w.slots[k].playerId == id
    ensures IsBoard(r.board) && |r.slots| == |w.slots|
  {
    var k := FindSlot(w.slots, id, 0);
    World(KillTrail(w.board, id), w.slots[k := w.slots[k].(isAlive := false)], w.remaining - 1)
  }

  /** The move of the player in slot `i`: a computer first picks its heading,
      the head advances, and then it either crashes or claims the new cell. */
  function AfterMove(w: World, i: nat): (r: World)
    requires IsBoard(w.board) && i < |w.slots|
    ensures IsBoard(r.board) && |r.slots| == |w.slots|
  {
    var c := w.slots[i];
    var steered := if c.isHuman then c else c.(nextDir := BestDir(w.board, c.headX, c.headY, c.nextDir));
    var moved := Advance(steered);
    var slots := w.slots[i := moved];
    if Blocked(w.board, moved.headX, moved.headY) then
      assert slots[i].playerId == moved.playerId;
      AfterCollision(World(w.board, slots, w.remaining), moved.playerId)
    else
      World(Mark(w.board, moved.headX, moved.headY, moved.playerId), slots, w.remaining)
  }

  /** Slot `i`'s turn within a tick: only a live player moves. */
  function Visit(w: World, i: nat): (r: World)
    requires IsBoard(w.board) && i < |w.slots|
    ensures IsBoard(r.board) && |r.slots| == |w.slots|
  {
    if w.slots[i].isAlive then AfterMove(w, i) else w
  }

  /** A tick cut short after the first `n` slots have had their turn, in
      index order. A full tick over `total` players is `AfterSteps(w, total)`. */
  function AfterSteps(w: World, n: nat): (r: World)
    requires IsBoard(w.board) && n <= |w.slots|
    ensures IsBoard(r.board) && |r.slots| == |w.slots|
  {
    if n == 0 then w else Visit(AfterSteps(w, n - 1), n - 1)
  }

  /** `k` ticks in a row over the first `total` slots. */
  function AfterTicks(w: World, total: nat, k: nat): (r: World)
    requires IsBoard(w.board) && total <= |w.slots|
    ensures IsBoard(r.board) && |r.slots| == |w.slots|
  {
    if k == 0 then w else AfterSteps(AfterTicks(w, total, k - 1), total)
  }

  /** The number of live slots among the first `n`. */
  function CountAlive(slots: seq<Character>, n: nat): nat
    requires n <= |slots|
  {
    if n == 0 then 0 else CountAlive(slots, n - 1) + (if slots[n - 1].isAlive then 1 else 0)
  }

  /** The name of the highest-index live slot among the first `n`, or
      `current` if none is alive. */
  function LastAlive(slots: seq<Character>, n: nat, current: Name): Name
    requires n <= |slots|
  {
    if n == 0 then current
    else if slots[n - 1].isAlive then slots[n - 1].name
    else LastAlive(slots, n - 1, current)
  }

  /** The invariant of a match with `total` players: slot `k` carries id
      `k + 1`, live heads are on the board, `remaining` counts the live slots,
      and every trail cell belongs to a live player. */
  ghost predicate Wf(w: World, total: nat) {
    && IsBoard(w.board)
    && |w.slots| == PLAYER_COUNT
    && total <= PLAYER_COUNT
    && (forall k :: 0 <= k < total ==> w.slots[k].playerId == k + 1)
    && (forall k :: 0 <= k < total && w.slots[k].isAlive ==> InBounds(w.slots[k].headX, w.slots[k].headY))
    && w.remaining == CountAlive(w.slots, total)
    && (forall x, y :: 0 <= x < GAME_WIDTH && 0 <= y < GAME_HEIGHT && w.board[x][y].Trail? ==>
          1 <= w.board[x][y].owner <= total && w.slots[w.board[x][y].owner - 1].isAlive)
  }

  /** How a cell may change over time: an empty cell may be claimed, a trail
      may die, a dead cell stays dead. */
  predicate Persists(before: Cell, after: Cell) {
    match before
    case Nothing => true
    case Trail(id) => after == before || after == Dead
    case Dead => after == Dead
  }

  /** What no tick can undo: the count of live players never grows, a dead
      slot is never moved or revived, and no cell is ever emptied again. */
  ghost predicate Evolves(w: World, w': World) {
    && IsBoard(w.board) && IsBoard(w'.board)
    && |w'.slots| == |w.slots|
    && w'.remaining <= w.remaining
    && (forall k :: 0 <= k < |w.slots| && !w.slots[k].isAlive ==> w'.slots[k] == w.slots[k])
    && (forall x, y :: 0 <= x < GAME_WIDTH && 0 <= y < GAME_HEIGHT ==> Persists(w.board[x][y], w'.board[x][y]))
  }

  lemma EvolvesTransitive(w1: World, w2: World, w3: World)
    requires Evolves(w1, w2) && Evolves(w2, w3)
    ensures Evolves(w1, w3)
  {
  }

  /** Changing one slot changes the live count by the change in that slot alone. */
  lemma {:induction false} CountAliveUpdate(slots: seq<Character>, n: nat, i: nat, c: Character)
    requires n <= |slots| && i < |slots|
    ensures CountAlive(slots[i := c], n) ==
      CountAlive(slots, n)
      - (if i < n && slots[i].isAlive then 1 else 0)
      + (if i < n && c.isAlive then 1 else 0)
  {
    if n > 0 {
      CountAliveUpdate(slots, n - 1, i, c);
    }
  }

  /** Under the invariant, the crash lookup finds the mover's own slot. */
  lemma FindSlotFindsMover(slots: seq<Character>, total: nat, i: nat)
    requires total <= |slots| && i < total
    requires forall k :: 0 <= k < total ==> slots[k].playerId == k + 1
    ensures FindSlot(slots, i + 1, 0) == i
  {
    assert slots[i].playerId == i + 1;
  }

  /** The outcome of one live player's move: the heading is the player's own
      (human) or the heuristic's pick (computer, never the reverse), the head
      moves exactly one cell that way, no other slot changes, and then either
      the new cell was free and it alone changes, to the player's id, or the
      player dies, one fewer player remains and its trail alone turns dead. */
  lemma MoveOutcome(w: World, total: nat, i: nat)
    requires Wf(w, total) && i < total && w.slots[i].isAlive
    ensures var c, r := w.slots[i], AfterMove(w, i);
      var c' := r.slots[i];
      && c'.nextDir == (if c.isHuman then c.nextDir else BestDir(w.board, c.headX, c.headY, c.nextDir))
      && (!c.isHuman ==> c'.nextDir != Opposite(c.nextDir))
      && c'.headX == StepX(c.headX, c'.nextDir, 1) && c'.headY == StepY(c.headY, c'.nextDir, 1)
      && c'.playerId == c.playerId && c'.name == c.name && c'.isHuman == c.isHuman
      && (forall k :: 0 <= k < |w.slots| && k != i ==> r.slots[k] == w.slots[k])
      && (!Blocked(w.board, c'.headX, c'.headY) ==>
            && c'.isAlive && r.remaining == w.remaining
            && r.board[c'.headX][c'.headY] == Trail(c.playerId)
            && forall x, y :: 0 <= x < GAME_WIDTH && 0 <= y < GAME_HEIGHT && (x, y) != (c'.headX, c'.headY) ==>
                 r.board[x][y] == w.board[x][y])
      && (Blocked(w.board, c'.headX, c'.headY) ==>
            && !c'.isAlive && r.remaining == w.remaining - 1
            && forall x, y :: 0 <= x < GAME_WIDTH && 0 <= y < GAME_HEIGHT ==>
                 r.board[x][y] == (if w.board[x][y] == Trail(c.playerId) then Dead else w.board[x][y]))
  {
    var c := w.slots[i];
    BestDirIsPick(w.board, c.headX, c.headY, c.nextDir);
    var steered := if c.isHuman then c else c.(nextDir := BestDir(w.board, c.headX, c.headY, c.nextDir));
    var moved := Advance(steered);
    FindSlotFindsMover(w.slots[i := moved], total, i);
  }

  /** One live player's move keeps the invariant. */
  lemma MovePreservesWf(w: World, total: nat, i: nat)
    requires Wf(w, total) && i < total && w.slots[i].isAlive
    ensures Wf(AfterMove(w, i), total)
  {
    MoveOutcome(w, total, i);
    var r := AfterMove(w, i);
    var c' := r.slots[i];
    CountAliveUpdate(w.slots, total, i, c');
    assert r.slots == w.slots[i := c'];
    if !Blocked(w.board, c'.headX, c'.headY) {
      forall x, y | 0 <= x < GAME_WIDTH && 0 <= y < GAME_HEIGHT && r.board[x][y].Trail?
        ensures 1 <= r.board[x][y].owner <= total && r.slots[r.board[x][y].owner - 1].isAlive
      {
        if (x, y) != (c'.headX, c'.headY) {
          assert r.board[x][y] == w.board[x][y];
        }
      }
    } else {
      forall x, y | 0 <= x < GAME_WIDTH && 0 <= y < GAME_HEIGHT && r.board[x][y].Trail?
        ensures 1 <= r.board[x][y].owner <= total && r.slots[r.board[x][y].owner - 1].isAlive
      {
        assert r.board[x][y] == w.board[x][y];
        assert r.board[x][y].owner != c'.playerId;
      }
    }
  }

  /** A move, on any board, can only do what `Evolves` allows. */
  lemma MoveEvolves(w: World, i: nat)
    requires IsBoard(w.board) && i < |w.slots| && w.slots[i].isAlive
    ensures Evolves(w, AfterMove(w, i))
  {
  }

  /** Every prefix of a tick keeps the invariant. */
  lemma {:induction false} StepsPreserveWf(w: World, total: nat, n: nat)
    requires Wf(w, total) && n <= total
    ensures Wf(AfterSteps(w, n), total)
  {
    if n > 0 {
      StepsPreserveWf(w, total, n - 1);
      var v := AfterSteps(w, n - 1);
      if v.slots[n - 1].isAlive {
        MovePreservesWf(v, total, n - 1);
      }
    }
  }

  /** Every prefix of a tick only evolves the world. */
  lemma {:induction false} StepsEvolve(w: World, n: nat)
    requires IsBoard(w.board) && n <= |w.slots|
    ensures Evolves(w, AfterSteps(w, n))
  {
    if n > 0 {
      StepsEvolve(w, n - 1);
      var v := AfterSteps(w, n - 1);
      if v.slots[n - 1].isAlive {
        MoveEvolves(v, n - 1);
        EvolvesTransitive(w, v, AfterSteps(w, n));
      }
    }
  }

  /** Any number of ticks keeps the invariant and only evolves the world. */
  lemma {:induction false} TicksPreserveWf(w: World, total: nat, k: nat)
    requires Wf(w, total)
    ensures Wf(AfterTicks(w, total, k), total)
    ensures Evolves(w, AfterTicks(w, total, k))
  {
    if k == 0 {
      assert Evolves(w, w) by {
        forall x, y | 0 <= x < GAME_WIDTH && 0 <= y < GAME_HEIGHT
          ensures Persists(w.board[x][y], w.board[x][y])
        {
        }
      }
    } else {
      TicksPreserveWf(w, total, k - 1);
      var v := AfterTicks(w, total, k - 1);
      StepsPreserveWf(v, total, total);
      StepsEvolve(v, total);
      EvolvesTransitive(w, v, AfterTicks(w, total, k));
    }
  }

  /** With at most one player left, `LastAlive` names the survivor, if any. */
  lemma {:induction false} LastAliveIsSurvivor(slots: seq<Character>, n: nat, current: Name)
    requires n <= |slots|
    ensures CountAlive(slots, n) == 0 ==> LastAlive(slots, n, current) == current
    ensures CountAlive(slots, n) == 1 ==>
      exists k :: 0 <= k < n && slots[k].isAlive && LastAlive(slots, n, current) == slots[k].name
        && forall j :: 0 <= j < n && j != k ==> !slots[j].isAlive
  {
    if n > 0 {
      LastAliveIsSurvivor(slots, n - 1, current);
      if slots[n - 1].isAlive && CountAlive(slots, n) == 1 {
        assert CountAlive(slots, n - 1) == 0;
        CountAliveZero(slots, n - 1);
      }
    }
  }

  /** A live count of zero means no live slot. */
  lemma {:induction false} CountAliveZero(slots: seq<Character>, n: nat)
    requires n <= |slots| && CountAlive(slots, n) == 0
    ensures forall j :: 0 <= j < n ==> !slots[j].isAlive
  {
    if n > 0 {
      CountAliveZero(slots, n - 1);
    }
  }

  /** When every one of the first `n` slots is alive, all `n` are counted. */
  lemma {:induction false} CountAliveAll(slots: seq<Character>, n: nat)
    requires n <= |slots|
    requires forall j :: 0 <= j < n ==> slots[j].isAlive
    ensures CountAlive(slots, n) == n
  {
    if n > 0 {
      CountAliveAll(slots, n - 1);
    }
  }
}
