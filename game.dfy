/** The match state machine: the one mutable aggregate holding the matrix,
    the four player slots, the phase, the mode, the player counts and the two
    timestamps, with the operations the host loop and the key handler call.
    Time comes in as `now`, the milliseconds since the program started. */
module Game {
  import opened Board
  import opened Heuristic
  import opened Engine

  datatype State = Start | Running | Paused | GameOver

  datatype GameMode = PvP | PvE {
    /** The mode after the `^= 1` of the key handler. */
    function Toggled(): GameMode {
      if this == PvP then PvE else PvP
    }
  }

  /** The two human key sets: the arrow keys belong to player 1, W, A, S and D
      to player 2. */
  datatype KeySet = Arrows | Wasd

  /** The keys the core reacts to: Enter (either Enter key), Restart (R or
      Space), Pause (P), a heading key of a key set, and every other key. */
  datatype Key = Enter | Restart | Pause | Heading(keys: KeySet, dir: Direction) | Other

  /** The slot a key set steers, when that slot is a human player. */
  function KeyOwner(keys: KeySet): nat {
    if keys == Arrows then 0 else 1
  }

  /** A slot as the zero-filled allocation of the game state leaves it. */
  const ZEROED_SLOT := Character(0, 0, Right, 0, NoName, false, false)

  function StartPosition(i: nat): (int, int)
    requires i < PLAYER_COUNT
  {
    if i == 0 then (GAME_WIDTH / 4, GAME_HEIGHT / 2)
    else if i == 1 then (3 * GAME_WIDTH / 4, GAME_HEIGHT / 2)
    else if i == 2 then (GAME_WIDTH / 4, GAME_HEIGHT / 4)
    else (3 * GAME_WIDTH / 4, GAME_HEIGHT / 4)
  }

  function StartDirection(i: nat): Direction
    requires i < PLAYER_COUNT
  {
    if i == 0 then Right else if i == 1 then Left else if i == 2 then Up else Down
  }

  function HumansFor(mode: GameMode): nat {
    if mode == PvP then 2 else 1
  }

  /** Slot `i` at the start of a match with `humans` human players: humans take
      the lowest slots and are named P1, P2; computers are named CPU1, CPU2, ... */
  function InitialCharacter(i: nat, humans: nat): Character
    requires i < PLAYER_COUNT
  {
    Character(StartPosition(i).0, StartPosition(i).1, StartDirection(i), i + 1,
      if i < humans then Human(i + 1) else Computer(i + 1 - humans), i < humans, true)
  }

  /** The engine's view of a freshly started match. */
  function InitialWorld(humans: nat): World {
    World(EmptyBoard(), seq(PLAYER_COUNT, i requires 0 <= i < PLAYER_COUNT => InitialCharacter(i, humans)), PLAYER_COUNT)
  }

  /** A freshly started match satisfies the invariant: four live players with
      ids 1 to 4 on distinct cells of the board, all counted as remaining. */
  lemma InitialWorldWf(humans: nat)
    ensures Wf(InitialWorld(humans), PLAYER_COUNT)
    ensures forall i, j :: 0 <= i < j < PLAYER_COUNT ==>
      StartPosition(i) != StartPosition(j)
  {
    var w := InitialWorld(humans);
    CountAliveAll(w.slots, PLAYER_COUNT);
  }

  /** The key handler's reversal guard: the requested heading replaces the
      pending one unless it is that heading's reverse. */
  function Steer(pending: Direction, requested: Direction): (r: Direction)
    ensures r != Opposite(pending)
    ensures r == requested <==> requested != Opposite(pending)
    ensures r != requested ==> r == pending
  {
    if pending != Opposite(requested) then requested else pending
  }

  /** The guard is against the pending heading, not the last one moved: two
      presses between steps can reverse a player onto its own trail. */
  lemma SteerTwiceCanReverse()
    ensures Steer(Steer(Right, Up), Left) == Opposite(Right)
  {
  }

  /** How many steps the catch-up loop runs when it finds the clock at `now`. */
  function StepsDue(lastStep: nat, now: nat): (k: nat)
    requires lastStep <= now
    ensures lastStep + STEP_RATE_IN_MILLISECONDS * k <= now < lastStep + STEP_RATE_IN_MILLISECONDS * (k + 1)
  {
    (now - lastStep) / STEP_RATE_IN_MILLISECONDS
  }

  /** A pause that lasts `paused` milliseconds and moves the step clock on by
      as much leaves the catch-up loop with the same number of steps to run
      as if that time had never passed. */
  lemma PauseIsTransparent(lastStep: nat, paused: nat, now: nat)
    requires lastStep <= now
    ensures StepsDue(lastStep + paused, now + paused) == StepsDue(lastStep, now)
  {
  }

  /** Resets every cell of the matrix to empty. */
  method InitializeGameBoard(m: array2<Cell>)
    requires IsMatrix(m)
    modifies m
    ensures Snapshot(m) == EmptyBoard()
  {
    for x := 0 to GAME_WIDTH
      invariant forall a, b :: 0 <= a < x && 0 <= b < GAME_HEIGHT ==> m[a, b] == Nothing
    {
      for y := 0 to GAME_HEIGHT
        invariant forall a, b :: 0 <= a < GAME_WIDTH && 0 <= b < GAME_HEIGHT && (a < x || (a == x && b < y)) ==> m[a, b] == Nothing
      {
        m[x, y] := Nothing;
      }
    }
    SnapshotOf(m, EmptyBoard());
  }

  class AppState {
    const matrix: array2<Cell>
    const slots: array<Character>
    var state: State
    var gameMode: GameMode
    var totalHumanPlayers: nat
    var totalComputerPlayers: nat
    var remainingPlayers: int
    var winner: Name
    var pauseTime: nat
    var lastStep: nat

    ghost predicate Shape()
      reads this
    {
      IsMatrix(matrix) && slots.Length == PLAYER_COUNT
    }

    function TotalPlayers(): nat
      reads this
    {
      totalHumanPlayers + totalComputerPlayers
    }

    /** The state the step engine works on, as a value. */
    ghost function View(): World
      reads this, matrix, slots
      requires Shape()
    {
      World(Snapshot(matrix), slots[..], remainingPlayers)
    }

    /** The invariant between operations: the engine's invariant over the
        players of the current match. */
    ghost predicate Valid()
      reads this, matrix, slots
    {
      Shape() && TotalPlayers() <= PLAYER_COUNT && Wf(View(), TotalPlayers())
    }

    /** The state right after a match starts at `now`. */
    ghost predicate Started(now: nat)
      reads this, matrix, slots
      requires Shape()
    {
      && state == Running && lastStep == now
      && totalHumanPlayers == HumansFor(gameMode)
      && totalComputerPlayers == PLAYER_COUNT - totalHumanPlayers
      && View() == InitialWorld(totalHumanPlayers)
    }

    /** What the pause key does to the phase and the two timestamps. */
    twostate predicate PauseToggled(now: nat)
      reads this
    {
      && (old(state) == Running ==> state == Paused && pauseTime == now && lastStep == old(lastStep))
      && (old(state) == Paused ==>
            state == Running && pauseTime == old(pauseTime) && lastStep == old(lastStep) + (now - old(pauseTime)))
      && (old(state) != Running && old(state) != Paused ==>
            state == old(state) && pauseTime == old(pauseTime) && lastStep == old(lastStep))
    }

    /** The state after start-up, in the start menu, before any match. */
    constructor (now: nat)
      ensures Valid() && fresh(matrix) && fresh(slots)
      ensures state == Start && gameMode == PvP && pauseTime == now && lastStep == now
      ensures totalHumanPlayers == 0 && totalComputerPlayers == 0 && remainingPlayers == 0 && winner == NoName
      ensures Snapshot(matrix) == EmptyBoard()
      ensures forall k :: 0 <= k < PLAYER_COUNT ==> slots[k] == ZEROED_SLOT
    {
      matrix := new Cell[GAME_WIDTH, GAME_HEIGHT]((x, y) => Nothing);
      slots := new Character[PLAYER_COUNT](_ => ZEROED_SLOT);
      state := Start;
      gameMode := PvP;
      totalHumanPlayers, totalComputerPlayers, remainingPlayers := 0, 0, 0;
      winner := NoName;
      pauseTime, lastStep := now, now;
      new;
      SnapshotOf(matrix, EmptyBoard());
    }

    /** Moves the head of slot `i` one cell along its heading. */
    method MoveHead(i: nat)
      requires Shape() && i < PLAYER_COUNT
      modifies slots
      ensures slots[..] == old(slots[..])[i := Advance(old(slots[i]))]
    {
      var c := slots[i];
      match c.nextDir
      case Right => slots[i] := c.(headX := c.headX + 1);
      case Up => slots[i] := c.(headY := c.headY - 1);
      case Left => slots[i] := c.(headX := c.headX - 1);
      case Down => slots[i] := c.(headY := c.headY + 1);
    }

    /** Kills the player with id `playerId`: its slot, found by searching the
        slots for that id, stops being alive, one fewer player remains, and
        each of its trail cells turns dead. */
    method HandleCollision(playerId: int)
      requires Shape()
      requires exists k :: 0 <= k < PLAYER_COUNT && slots[k].playerId == playerId
      modifies this`remainingPlayers, matrix, slots
      ensures View() == AfterCollision(old(View()), playerId)
    {
      ghost var w := View();
      var index := -1;
      for i := 0 to PLAYER_COUNT
        invariant index == -1
        invariant forall k :: 0 <= k < i ==> slots[k].playerId != playerId
      {
        if slots[i].playerId == playerId {
          index := i;
          break;
        }
      }
      slots[index] := slots[index].(isAlive := false);
      remainingPlayers := remainingPlayers - 1;

      for x := 0 to GAME_WIDTH
        modifies matrix
        invariant forall a, b :: 0 <= a < GAME_WIDTH && 0 <= b < GAME_HEIGHT ==>
          matrix[a, b] == if a < x then Killed(w.board[a][b], playerId) else w.board[a][b]
      {
        for y := 0 to GAME_HEIGHT
          modifies matrix
          invariant forall a, b :: 0 <= a < GAME_WIDTH && 0 <= b < GAME_HEIGHT ==>
            matrix[a, b] == if a < x || (a == x && b < y) then Killed(w.board[a][b], playerId) else w.board[a][b]
        {
          if matrix[x, y] == Trail(playerId) {
            matrix[x, y] := Dead;
          }
        }
      }
      SnapshotOf(matrix, KillTrail(w.board, playerId));
    }

    /** The move of the player in slot `i`: a computer player first picks its
        heading, then the head advances and the player either crashes or
        claims the cell. A head that is already off the board is only
        reported by the source, so it has no counterpart here. */
    method MovePlayer(i: nat)
      requires Shape() && i < PLAYER_COUNT
      modifies this`remainingPlayers, matrix, slots
      ensures View() == AfterMove(old(View()), i)
    {
      ghost var w := View();
      if !slots[i].isHuman {
        var c := slots[i];
        var d := PickNextDir(matrix, c.headX, c.headY, c.nextDir);
        slots[i] := c.(nextDir := d);
      }
      MoveHead(i);
      var c := slots[i];
      ghost var moved := World(w.board, w.slots[i := c], w.remaining);
      assert View() == moved;
      if IsCollision(matrix, c.headX, c.headY) {
        assert slots[i].playerId == c.playerId;
        HandleCollision(c.playerId);
      } else {
        ghost var b := Snapshot(matrix);
        matrix[c.headX, c.headY] := Trail(c.playerId);
        SnapshotOf(matrix, Mark(b, c.headX, c.headY, c.playerId));
      }
    }

    /** One tick: every live player among the first `TotalPlayers()` slots
        moves, in slot order. */
    method MoveCharacters()
      requires Shape() && TotalPlayers() <= PLAYER_COUNT
      modifies this`remainingPlayers, matrix, slots
      ensures View() == AfterSteps(old(View()), TotalPlayers())
    {
      var totalPlayers := totalHumanPlayers + totalComputerPlayers;
      for i := 0 to totalPlayers
        invariant View() == AfterSteps(old(View()), i)
      {
        if slots[i].isAlive {
          MovePlayer(i);
        }
      }
    }

    /** Sets the winner to the name of the last live slot, if there is one. */
    method SetWinner()
      requires Shape() && TotalPlayers() <= PLAYER_COUNT
      modifies this`winner
      ensures winner == LastAlive(slots[..], TotalPlayers(), old(winner))
    {
      var totalPlayers := totalHumanPlayers + totalComputerPlayers;
      for i := 0 to totalPlayers
        invariant winner == LastAlive(slots[..], i, old(winner))
      {
        if slots[i].isAlive {
          winner := slots[i].name;
        }
      }
    }

    /** Pauses a running match or resumes a paused one. Resuming moves the
        step clock forward by the time spent paused, so the time since the
        last step is the same as when the match was paused. */
    method TogglePause(now: nat)
      requires state == Paused ==> pauseTime <= now
      modifies this`state, this`pauseTime, this`lastStep
      ensures PauseToggled(now)
      ensures old(state) == Paused ==> now - lastStep == old(pauseTime) - old(lastStep)
    {
      if state == Running {
        pauseTime := now;
        state := Paused;
      } else if state == Paused {
        var pausedDuration := now - pauseTime;
        lastStep := lastStep + pausedDuration;
        state := Running;
      }
    }

    /** Fills the first `TotalPlayers()` slots for a new match. */
    method InitializeCharacters()
      requires Shape() && TotalPlayers() <= PLAYER_COUNT
      modifies slots
      ensures forall k :: 0 <= k < TotalPlayers() ==> slots[k] == InitialCharacter(k, totalHumanPlayers)
      ensures forall k :: TotalPlayers() <= k < PLAYER_COUNT ==> slots[k] == old(slots[k])
    {
      var humansAdded, computersAdded := 0, 0;
      var totalPlayers := totalHumanPlayers + totalComputerPlayers;
      for i := 0 to totalPlayers
        invariant humansAdded == if i < totalHumanPlayers then i else totalHumanPlayers
        invariant computersAdded == i - humansAdded
        invariant forall k :: 0 <= k < i ==> slots[k] == InitialCharacter(k, totalHumanPlayers)
        invariant forall k :: i <= k < PLAYER_COUNT ==> slots[k] == old(slots[k])
      {
        var isHuman: bool, name: Name;
        if humansAdded < totalHumanPlayers {
          isHuman := true;
          humansAdded := humansAdded + 1;
          name := Human(humansAdded);
        } else {
          isHuman := false;
          computersAdded := computersAdded + 1;
          name := Computer(computersAdded);
        }
        var (x, y) := StartPosition(i);
        slots[i] := Character(x, y, StartDirection(i), computersAdded + humansAdded, name, isHuman, true);
      }
    }

    /** Starts a match in the current mode: an empty board, four players of
        whom two (PvP) or one (PvE) are human, and the step clock at `now`. */
    method StartGame(now: nat)
      requires Shape()
      modifies this`state, this`lastStep, this`totalHumanPlayers, this`totalComputerPlayers, this`remainingPlayers
      modifies matrix, slots
      ensures Valid() && Started(now)
    {
      InitializeGameBoard(matrix);
      state := Running;
      lastStep := now;
      if gameMode == PvP {
        totalHumanPlayers := 2;
        totalComputerPlayers := PLAYER_COUNT - 2;
      } else {
        totalHumanPlayers := 1;
        totalComputerPlayers := PLAYER_COUNT - 1;
      }
      remainingPlayers := totalHumanPlayers + totalComputerPlayers;
      InitializeCharacters();
      assert slots[..] == InitialWorld(totalHumanPlayers).slots;
      InitialWorldWf(totalHumanPlayers);
    }

    /** One frame of the host loop. In a running match, one tick is run for
        every whole step interval since the last step, each advancing the step
        clock by exactly one interval; then the match ends if at most one
        player remains. Other phases leave the state alone. */
    method Iterate(now: nat)
      requires Valid()
      requires state == Running ==> lastStep <= now
      modifies this`remainingPlayers, this`lastStep, this`state, this`winner, matrix, slots
      ensures Valid()
      ensures old(state) != Running ==> unchanged(this, matrix, slots)
      ensures old(state) == Running ==>
        && lastStep == old(lastStep) + STEP_RATE_IN_MILLISECONDS * StepsDue(old(lastStep), now)
        && 0 <= now - lastStep < STEP_RATE_IN_MILLISECONDS
        && View() == AfterTicks(old(View()), TotalPlayers(), StepsDue(old(lastStep), now))
        && Evolves(old(View()), View())
        && state == (if remainingPlayers <= 1 then GameOver else Running)
        && winner == (if remainingPlayers <= 1 then LastAlive(slots[..], TotalPlayers(), old(winner)) else old(winner))
      ensures old(state) == Running && remainingPlayers == 1 ==>
        exists k :: 0 <= k < TotalPlayers() && slots[k].isAlive && winner == slots[k].name
      ensures old(state) == Running && remainingPlayers <= 0 ==> winner == old(winner)
    {
      if state == Running {
        ghost var w := View();
        ghost var steps: nat := 0;
        while now - lastStep >= STEP_RATE_IN_MILLISECONDS
          invariant old(lastStep) <= lastStep <= now
          invariant lastStep == old(lastStep) + STEP_RATE_IN_MILLISECONDS * steps
          invariant View() == AfterTicks(w, TotalPlayers(), steps)
          invariant state == Running && winner == old(winner)
          decreases now - lastStep
        {
          MoveCharacters();
          lastStep := lastStep + STEP_RATE_IN_MILLISECONDS;
          steps := steps + 1;
        }
        TicksPreserveWf(w, TotalPlayers(), steps);
        LastAliveIsSurvivor(slots[..], TotalPlayers(), winner);
        if remainingPlayers <= 1 {
          state := GameOver;
          SetWinner();
        }
      }
    }

    /** The key handler. Enter starts a match only from the start menu;
        Restart starts a new one in any phase; Pause toggles the pause; a
        heading key flips the mode in the start menu when it is Up or Down,
        and in a running match steers its key set's player, if that slot is
        human, unless the heading is the reverse of the pending one. */
    method HandleKey(key: Key, now: nat)
      requires Valid()
      requires key == Pause && state == Paused ==> pauseTime <= now
      modifies this, matrix, slots
      ensures Valid()
      ensures winner == old(winner)
      ensures gameMode ==
        if key.Heading? && old(state) == Start && (key.dir == Up || key.dir == Down)
        then old(gameMode).Toggled() else old(gameMode)
      ensures (key == Enter && old(state) == Start) || key == Restart ==>
        Started(now) && pauseTime == old(pauseTime)
      ensures (key == Enter && old(state) != Start) || key == Other ==> unchanged(this, matrix, slots)
      ensures key == Pause ==>
        && PauseToggled(now) && unchanged(matrix, slots)
        && remainingPlayers == old(remainingPlayers)
        && totalHumanPlayers == old(totalHumanPlayers) && totalComputerPlayers == old(totalComputerPlayers)
      ensures key.Heading? ==>
        && unchanged(matrix)
        && state == old(state) && lastStep == old(lastStep) && pauseTime == old(pauseTime)
        && remainingPlayers == old(remainingPlayers)
        && totalHumanPlayers == old(totalHumanPlayers) && totalComputerPlayers == old(totalComputerPlayers)
        && var p := KeyOwner(key.keys);
           slots[..] ==
             if old(state) == Running && p < old(totalHumanPlayers)
             then old(slots[..])[p := old(slots[p]).(nextDir := Steer(old(slots[p].nextDir), key.dir))]
             else old(slots[..])
    {
      match key
      case Enter =>
        if state == Start {
          StartGame(now);
        }
      case Restart =>
        StartGame(now);
      case Pause =>
        TogglePause(now);
      case Heading(keys, dir) =>
        if state == Start && (dir == Up || dir == Down) {
          gameMode := gameMode.Toggled();
        }
        var p := KeyOwner(keys);
        if state == Running && p < totalHumanPlayers {
          ghost var before := slots[..];
          slots[p] := slots[p].(nextDir := Steer(slots[p].nextDir, dir));
          CountAliveUpdate(before, TotalPlayers(), p, slots[p]);
          assert slots[..] == before[p := slots[p]];
        }
      case Other =>
    }
  }
}
