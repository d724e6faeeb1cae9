# A verified model of the TRON light-cycle engine

This project models the simulation core of `tron.c`, an SDL3 light-cycle game, in Dafny.

In the game, four players (humans and computer players) drive across a 120 x 90 grid. Each player leaves a solid trail behind. A player dies when they run into a wall or any trail, including their own. The match ends when at most one player is left.

The model covers four parts of the core:
- **the collision oracle** (`board.dfy`);
- **the computer players' heuristic** (`heuristic.dfy`): the run of free cells in each heading, and the choice of the longest run;
- **the step engine** (`engine.dfy`): one player's move, a tick over every slot, several ticks;
- **the match state machine** (`game.dfy`): start, pause, the fixed-cadence catch-up loop, game over, the winner, and how keys are gated by phase.

The game state is a class, `Game.AppState`.
- It owns the cell matrix as an `array2<Cell>` and the four player slots as an `array<Character>`. Its methods update both in place, as the C functions do.
- Each method is proved to produce exactly the state that a value-level function of `Engine` describes. For example, `MovePlayer(i)` leaves the state at `AfterMove(old state, i)`.
- The lemmas of `Engine` then state what those functions guarantee:
  - the match invariant `Wf` (slot `k` has id `k + 1`; live heads are on the board; the remaining count equals the number of live slots; every trail belongs to a live player);
  - the monotonicity `Evolves` (the remaining count never grows, dead players never move or revive, no cell is ever emptied).

The clock (`SDL_GetTicks`) becomes a parameter `now: nat`, in milliseconds. The C code subtracts unsigned 64-bit timestamps. The model therefore requires the subtrahend to be at most `now` exactly where the C code subtracts: `last_step` in the catch-up loop, and `pause_time` when unpausing.

### Behaviours of the code that the model keeps

These are reproduced as written, not corrected:

- **Reversal guard.** A human's heading key is refused only if it reverses the *pending* heading (`next_dir`). Two key presses within one step can therefore turn a player around onto their own trail (`Game.SteerTwiceCanReverse`). Computer players can never reverse (`Heuristic.BestDirIsPick`).
- **Restart.** Restart (R or Space) starts a new match in every phase, including the start menu and a paused match.
- **Winner.** The winner is never cleared when a new match starts. If the last players die in the same tick, the previous winner stays.
- **Crashed heads.** A crashed player's head keeps the coordinates of the crash, which may be off the board. Only live heads are on the board.
- **Game over.** The game-over test runs once, after the whole catch-up loop. A match can therefore run several more ticks after only one player is left.

## Model

| member | source | states |
|---|---|---|
| Board.IsCollision | tron.c:341-361 | a cell collides iff it is off the 120 x 90 board or on the board and not empty; the matrix is only read after the bounds test has passed |
| Board.Opposite | tron.c:405-408 | the reverse of a heading is never the heading itself and lies two places away in the order Right, Up, Left, Down |
| Heuristic.RunAhead | tron.c:364-396 | the first `Run` cells in the heading are on the board and empty, and the next cell collides |
| Heuristic.RunUnique | tron.c:364-396 | any count with that property equals `Run`, so the path length is uniquely determined |
| Heuristic.GetPathLength | tron.c:364-396 | the walk returns exactly `Run` of the current matrix, and the loop terminates because the board is bounded |
| Heuristic.ScanInvariant | tron.c:399-419 | after the first n rounds, the kept heading is not the reverse, has the longest run found so far, is the earliest with that run, and is the current heading while no run is positive |
| Heuristic.BestDirIsPick | tron.c:399-419 | the pick is never the reverse of the current heading; it is the earliest heading in the order Right, Up, Left, Down with the strictly longest positive run, or the current heading when every allowed run is 0 |
| Heuristic.PickUnique | tron.c:399-419 | that characterisation allows only one heading, so the heuristic is deterministic |
| Heuristic.PickNextDir | tron.c:399-419 | the loop that skips the reverse heading returns `BestDir` of the current matrix |
| Engine.Advance | tron.c:422-440 | a move changes exactly one head coordinate, by one, in the direction of `next_dir`, and nothing else in the slot |
| Engine.FindSlot | tron.c:445-451 | the lookup returns the first slot carrying the id, or -1 exactly when no slot carries it |
| Engine.FindSlotFindsMover | tron.c:446-451 | because slot k carries id k + 1, the lookup for a moving player finds that player's own slot, never -1 |
| Engine.CountAliveUpdate | tron.c:453-454 | changing one slot changes the live count by that slot's change alone |
| Engine.MoveOutcome | tron.c:470-484 | a live player's move: a computer takes the heuristic's heading (never the reverse), the head advances one cell, and no other slot changes; on a free cell only that cell changes, to the player's id; otherwise the player dies, the remaining count drops by exactly one, and exactly that player's trail cells turn dead |
| Engine.MovePreservesWf | tron.c:442-484 | one move keeps the match invariant (ids, live heads on the board, remaining count equals live slots, every trail owned by a live player) |
| Engine.MoveEvolves | tron.c:442-484 | one move never raises the remaining count, never touches a dead slot, and never empties a cell |
| Engine.EvolvesTransitive | tron.c:487-497 | these monotonicity guarantees compose across successive moves |
| Engine.StepsPreserveWf | tron.c:487-497 | visiting the slots in index order and moving only live players keeps the invariant after every prefix of the tick |
| Engine.StepsEvolve | tron.c:487-497 | every prefix of a tick only evolves the world as above |
| Engine.TicksPreserveWf | tron.c:806-809 | any number of catch-up ticks keeps the invariant and only evolves the world |
| Engine.LastAliveIsSurvivor | tron.c:297-307 | with one player left, the winner scan names that single survivor; with none left, the old winner is kept |
| Engine.CountAliveZero | tron.c:810-813 | a remaining count of 0 means no slot is alive |
| Engine.CountAliveAll | tron.c:603 | when all players of a new match are alive, the remaining count equals the number of players |
| Game.InitialWorldWf | tron.c:94-99 | a new match satisfies the invariant: four live players with ids 1 to 4, the remaining count is 4, and the starting cells are distinct |
| Game.Steer | tron.c:672-701 | a heading key never sets the reverse of the pending heading; the request is taken iff it is not that reverse, and otherwise the pending heading is kept |
| Game.SteerTwiceCanReverse | tron.c:674-699 | two presses between steps (Up, then Left, while heading Right) leave the pending heading as the reverse of the heading last moved |
| Game.StepsDue | tron.c:806-809 | the number of catch-up steps k is the one with last_step + 45k <= now < last_step + 45(k + 1) |
| Game.PauseIsTransparent | tron.c:516-520 | shifting the step clock by the paused time leaves the number of due steps as if the pause had not happened |
| Game.InitializeGameBoard | tron.c:528-534 | afterwards every cell of the matrix is empty |
| Game.AppState.constructor | tron.c:759-764 | the zero-filled state after start-up: start menu, PvP mode, both timestamps at `now`, no players, an empty winner, an empty matrix, zeroed slots; it satisfies the invariant |
| Game.AppState.MoveHead | tron.c:422-440 | only slot i changes, and it becomes `Advance` of its old value |
| Game.AppState.HandleCollision | tron.c:442-462 | the matrix, slots and remaining count become `AfterCollision`: the first slot with the id dies, one fewer player remains, and that id's cells turn dead |
| Game.AppState.MovePlayer | tron.c:470-484 | the matrix, slots and remaining count become `AfterMove` of their old values |
| Game.AppState.MoveCharacters | tron.c:487-497 | the matrix, slots and remaining count become the tick `AfterSteps` over the match's players |
| Game.AppState.SetWinner | tron.c:297-307 | the winner becomes the name of the highest-index live slot, or is left as it was if no slot is alive |
| Game.AppState.TogglePause | tron.c:509-525 | RUNNING becomes PAUSED with pause_time = now; PAUSED becomes RUNNING with last_step moved on by exactly now - pause_time, so the time since the last step equals its value when paused; any other phase is left alone |
| Game.AppState.InitializeCharacters | tron.c:537-584 | each slot of the match gets its fixed start position and heading (Right, Left, Up, Down), the id i + 1, and is alive; humans take the lowest slots, named P1, P2, and computers are named CPU1, CPU2, ...; other slots are unchanged |
| Game.AppState.StartGame | tron.c:587-606 | the matrix is empty; the phase is RUNNING with last_step = now; PvP has 2 humans and 2 computers and PvE has 1 and 3; the remaining count is 4; the slots are the initial ones; the invariant holds |
| Game.AppState.Iterate | tron.c:803-813 | in a running match, the number of ticks run is `StepsDue`; last_step advances by 45 per tick and ends within 45 ms of now; the state is the result of those ticks, which keeps the invariant and only evolves it; the phase becomes GAME_OVER iff at most one player remains; the winner is then the survivor, or unchanged if no one survives; other phases change nothing |
| Game.AppState.HandleKey | tron.c:639-712 | Enter starts a match only from the start menu; Restart starts one in every phase; Pause toggles the pause; Up and Down flip the mode only in the start menu; a heading key steers only in a running match, only a human slot that owns the key set, and never to the reverse of the pending heading; every other key changes nothing; the invariant is kept |

## Left out

- Rendering is not part of this model: menus, the background, the board drawing, colours and the menu set-up inside the frame function. These are graphics calls on floating-point rectangles.
- Audio is not part of this model: sound loading, the music and crash-sound stream refills, and `toggle_mute`. The mute key (M) is modelled as a key that changes nothing in the core.
- The SDL lifecycle is not part of this model: window, renderer, font and audio-device set-up, the event dispatch, shutdown and its failure paths. The quit keys (Escape, Q) end the process and are not modelled.
- The scancode table is abstracted. Each human key set (arrows for player 1; W, A, S, D for player 2) is the datatype `KeySet`, and a key is a `Key` value rather than a scancode.
- Names are abstract values: `Human(n)` for "P<n>", `Computer(n)` for "CPU<n>", and `NoName` for the empty string. The `sprintf`/`strcpy` formatting is not modelled.
- Diagnostic logging is left out: the out-of-bounds message in `move_player`, and the invalid-direction and invalid-slot messages.
- With headings as a datatype, the unreachable `default` branches of the direction switches do not exist.
- Game.AppState.Iterate: the 64-bit unsigned timestamps are unbounded naturals, so a wrap-around of `now - last_step` is not modelled. The model instead requires `last_step <= now` in a running match.
- Game.AppState.TogglePause: the same applies to `now - pause_time` when unpausing; the model requires `pause_time <= now`.
- Game.AppState.HandleCollision: it requires a slot with the crashing player's id, which the source also assumes (it would index slot -1 otherwise). `Engine.FindSlotFindsMover` shows that every call from a move meets this requirement.
- Cells are a datatype, `Trail(id)`, rather than small integers, so a player id cannot alias the empty or dead marker. Since ids are 1 to 4, the C encoding never aliases either.
- playground.c and the vendored SDL sources are not part of this model.
