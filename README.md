# Snowfall game — a verified model

`team11project/team11-snowflake.cpp` is a terminal game. A bucket at the bottom of a 30-row
window moves left and right on the keys `a` and `d`. Blue snowflakes spawn on the top row and fall.
A snowflake caught by the bucket earns a point, and one that reaches the ground costs a life. The
game ends when `q` is pressed or the last life is lost. This project models the game's simulation:

- `uint32.dfy` (module `Uint32`): C++ `unsigned int` arithmetic. The counters `points`, `lives`
  and `ticks` and the colour codes have this type, so `++` and `--` wrap modulo 2^32.
- `ansi.dfy` (module `Ansi`): `MakeColour`, which wraps a string in an SGR (Select Graphic
  Rendition) control sequence, section 8.3.117 of ECMA-48. `to_string` is modelled by
  `DecimalString`. A parser `ParseColour` reads such a string back. The round trip proves that the
  text and both colour codes can be recovered, and so that `MakeColour` is injective.
- `entities.dfy` (module `Entities`): the rules as functions on values:
  - the bucket's clamped movement;
  - gravity on the snowflake vector;
  - the catch test;
  - the catch/miss pass (`Survivors`, `CaughtCount`, `MissedCount`);
  - the snowflake `CreateSnowflake` appends.
- `game.dfy` (module `Game`):
  - the state as a value (`World`) and one tick of `main` as the function `Step`;
  - the invariant `Inv` that every reachable state keeps, and lemmas about it;
  - the class `Game`, whose fields are the program's mutable state (`bucket`, the program's `theBucket`, and `snowflakes`,
    `points`, `lives`, `ticks`, `allowBackgroundProcessing`). Its methods update that state in
    place, as the C++ functions do through references and globals. Each method is proved against
    the functions of `Entities` and `Step`;
  - `Play`, the loop of `main`, driven by a sequence of `LoopInput`s;
  - `RunGame`, `main` with its terminal-size test.

Inputs from the outside world become parameters:
- the value `rand()` returns is `randomValue`, and the new column is `3 + randomValue % 45`;
- whether the 100 ms tick interval has elapsed is `intervalElapsed`;
- the character `read` delivers, if any, is `received`;
- the terminal size `GetTerminalSize` reports is `terminalSize`.

Main results:
- `Game.Game.Tick` performs exactly `Step`.
- `Step` preserves `Inv`. The invariant says:
  - every snowflake is on screen, in column 3..47, and blue;
  - older snowflakes sit at least five rows below younger ones;
  - the youngest has fallen at least once per gravity pass since the last spawn tick.

  The schedule reasoning covers the wrap of `ticks` from 2^32 - 1 to 0.
- From `Inv` it follows that at most one snowflake is missed per tick. So the unsigned `lives`
  loses at most one per tick and never wraps below zero during play (`StepLosesAtMostOneLife`).
  `Play` therefore ends with `GameOver` exactly when `lives` reaches 0.

Gravity moves a row-30 snowflake to row 31 (lines 314-316), and the catch/miss pass of the same
tick (line 416) drops it (line 336). A missed snowflake is therefore kept for one pass at row 30
and costs one life.

## Model

| member | source | states |
|---|---|---|
| Uint32.WrapAdd | team11project/team11-snowflake.cpp:194-197 | `x++` on an `unsigned int` n times: congruent to x + n modulo 2^32, and exactly x + n without overflow |
| Uint32.WrapSub | team11project/team11-snowflake.cpp:199-202 | `x--` on an `unsigned int` n times: congruent to x - n modulo 2^32, and exactly x - n when it does not go below zero |
| Uint32.WrapSubUndoesAdd | team11project/team11-snowflake.cpp:174-175 | adding 10 to a background code and subtracting it again gives the code back, even across the 2^32 wrap |
| Ansi.DecimalString | team11project/team11-snowflake.cpp:171 | `to_string` of an unsigned value is a nonempty string of decimal digits with no leading zero unless the value is 0 |
| Ansi.DecimalRoundTrip | team11project/team11-snowflake.cpp:171 | the digits `to_string` writes denote the original number |
| Ansi.MakeColour | team11project/team11-snowflake.cpp:164-181 | the result starts with `ESC [ 1 ;`, ends with the input text followed by the reset `ESC [ 0 m`, and is at least as long as these parts |
| Ansi.MakeColourRoundTrip | team11project/team11-snowflake.cpp:164-181 | parsing the result of `MakeColour` recovers the text, the foreground code and the background code, including the no-background case 0 |
| Ansi.MakeColourInjective | team11project/team11-snowflake.cpp:164-181 | two calls give the same string only for the same text and colours |
| Entities.ColumnChange | team11project/team11-snowflake.cpp:258-262 | the change is in [-1,1]; it is -1 exactly for `a` and +1 exactly for `d` |
| Entities.MovedColumn | team11project/team11-snowflake.cpp:258-267 | the new column is always in [1,40]. From a column in range, `a` gives max(1, col-1), `d` gives min(40, col+1), and any other character, including `z`, leaves it unchanged |
| Entities.MoveBucket | team11project/team11-snowflake.cpp:255-268 | the bucket keeps its row and colour, and its column ends in [1,40] |
| Entities.Gravity | team11project/team11-snowflake.cpp:309-319 | same length, same columns and colours; each row at most 30 goes down by one, and rows above 30 are untouched |
| Entities.Fall | team11project/team11-snowflake.cpp:314-316 | column and colour are kept; a snowflake whose row is at most 30 goes down one row, and one on a row greater than 30 is unchanged |
| Entities.IsCaught | team11project/team11-snowflake.cpp:331-332 | the test `row == 29 and abs(col - bucketCol - 4) <= 4` holds exactly when the row is 29 and the column lies under the nine-character bucket glyph, bucketCol..bucketCol+8 |
| Entities.Kept | team11project/team11-snowflake.cpp:336-344 | a snowflake stays in the vector exactly when its row is at most 30 and it is not at row 29 under the bucket glyph |
| Entities.Missed | team11project/team11-snowflake.cpp:336-341 | a kept snowflake costs a life exactly when it is on row 30, wherever the bucket is, since row 30 is below the catch row |
| Entities.Survivors | team11project/team11-snowflake.cpp:326-346 | the new vector is no longer than the old one and holds exactly the snowflakes that are neither caught nor on a row greater than 30 |
| Entities.SurvivorsIsSubsequence | team11project/team11-snowflake.cpp:328-345 | the new vector is an order-preserving subsequence of the old one, with no snowflake modified |
| Entities.MissedAreGroundSurvivors | team11project/team11-snowflake.cpp:336-343 | the lives taken equal the number of kept snowflakes at row 30 |
| Entities.CaughtOrKept | team11project/team11-snowflake.cpp:329-344 | every snowflake of the pass is exactly one of: counted as a point, kept, or on a row greater than 30 and discarded |
| Entities.SurvivorsMultiplicity | team11project/team11-snowflake.cpp:336-344 | each kept snowflake occurs in the new vector as often as in the old one, and every other snowflake not at all |
| Entities.CountBelowGround | team11project/team11-snowflake.cpp:336 | at most one discarded snowflake per snowflake, and none exactly when no row is greater than 30 |
| Entities.CaughtCount | team11project/team11-snowflake.cpp:331-335 | at most one point per snowflake, and no point exactly when no snowflake is caught |
| Entities.MissedCount | team11project/team11-snowflake.cpp:336-341 | at most one life per snowflake, and no life lost exactly when no snowflake is on row 30 |
| Entities.NewSnowflake | team11project/team11-snowflake.cpp:289-292 | a new snowflake is on row 1, blue, in a column in [3,47] |
| Entities.SpawnColumnsCovered | team11project/team11-snowflake.cpp:290 | every column in [3,47] is reachable by some value of `rand()` |
| Game.Step | team11project/team11-snowflake.cpp:401-423 | one tick: `ticks` goes up by one, `b` flips the background flag, and the bucket moves. Gravity then the catch/miss pass run exactly when the new tick count is a multiple of 5, with points and lives changed by the catches and misses; otherwise the vector, points and lives are unchanged. A spawn is appended exactly when the count is a multiple of 25 |
| Game.TickArithmetic | team11project/team11-snowflake.cpp:401-423 | every spawn tick is a gravity tick, and five gravity passes separate spawns, also across the wrap of `ticks` to 0 |
| Game.InitialWorld | team11project/team11-snowflake.cpp:366-378 | the state `main` sets up has no snowflakes and lives left, and satisfies the reachable-state invariant |
| Game.FallAndResolve | team11project/team11-snowflake.cpp:413-417 | gravity then the catch/miss pass change only the snowflakes, points and lives; no snowflake left has a row greater than 30, and every snowflake is caught, kept or discarded |
| Game.AtMostOneMissed | team11project/team11-snowflake.cpp:336-341 | in a vector whose rows are five apart, at most one snowflake is missed in a pass |
| Game.SurvivorsSpaced | team11project/team11-snowflake.cpp:326-346 | the catch/miss pass keeps the snowflakes spaced five rows apart |
| Game.StepPreservesInv | team11project/team11-snowflake.cpp:401-423 | every tick keeps the reachable-state invariant (snowflakes on screen, in column 3..47, blue, five rows apart) |
| Game.StepLosesAtMostOneLife | team11project/team11-snowflake.cpp:412-423 | from a reachable state with lives left, a tick takes at most one life, so `lives--` never wraps |
| Game.StepKeepsColumns | team11project/team11-snowflake.cpp:409-423 | after a tick, every snowflake is the new one or has the column and colour of a snowflake from before the tick |
| Game.TerminalTooSmall | team11project/team11-snowflake.cpp:358 | a terminal that passes the test holds the ground row, every spawn column and the bucket rim at its rightmost column |
| Game.ReachableStateFitsTerminal | team11project/team11-snowflake.cpp:356-364 | on a terminal the game accepts, every snowflake of a reachable state and the bucket's rim lie inside the window |
| Game.Game.constructor | team11project/team11-snowflake.cpp:366-378 | the bucket at row 30, column 25, blue; no snowflakes; 0 points, 3 lives, 0 ticks; background processing on |
| Game.Game.ScoreIncrease | team11project/team11-snowflake.cpp:194-197 | `points` goes up by one with wrap, and nothing else changes |
| Game.Game.LiveDecrease | team11project/team11-snowflake.cpp:199-202 | `lives` goes down by one with wrap, and nothing else changes |
| Game.Game.UpdateBucketPosition | team11project/team11-snowflake.cpp:255-268 | the bucket becomes `MoveBucket` of the old bucket, and only the bucket changes |
| Game.Game.GravityOnSnowflake | team11project/team11-snowflake.cpp:309-319 | the in-place loop leaves the vector equal to `Gravity` of the old vector, and only the vector changes |
| Game.Game.IntersectionWithSnowflake | team11project/team11-snowflake.cpp:326-346 | the vector becomes `Survivors`, `points` grows by `CaughtCount` and `lives` shrinks by `MissedCount` (with wrap), and the bucket is untouched |
| Game.Game.CreateSnowflake | team11project/team11-snowflake.cpp:286-294 | exactly one snowflake, `NewSnowflake(randomValue)`, is appended and the others are unchanged |
| Game.Game.CheckLives | team11project/team11-snowflake.cpp:240-249 | the game goes on exactly when one more `lives--` would not wrap below zero |
| Game.Game.Tick | team11project/team11-snowflake.cpp:401-441 | the tick body turns the state into `Step` of the old state, and reports game over (`CheckLives`) exactly when `lives` is 0 |
| Game.Run | team11project/team11-snowflake.cpp:389-458 | the loop specified pass by pass: it ticks when background processing is off or the interval has elapsed, stops on a tick that leaves no lives, resets the character to `z` after a tick and takes the character `read` delivers; it reports game over only with no lives left |
| Game.RunKeepsInv | team11project/team11-snowflake.cpp:389-458 | from a reachable state with lives left, the loop ends in a reachable state, never gains a life, and reports game over exactly when no lives are left |
| Game.RunQuitsOnlyOnQ | team11project/team11-snowflake.cpp:389-458 | the loop reports quit only after a `q`, and runs out of inputs only when no `q` was read |
| Game.Game.Play | team11project/team11-snowflake.cpp:389-458 | the in-place loop ends in exactly the state and outcome `Run` gives from the initial character `'\0'`. It keeps the reachable-state invariant and never raises `lives`. It ends in `GameOver` exactly when `lives` is 0, ends in `Quit` only after a `q` was read, and uses up the inputs only if no `q` was read |
| Game.RunGame | team11project/team11-snowflake.cpp:351-470 | `main` fails exactly when the terminal is smaller than 30 rows or 50 columns, and otherwise succeeds with the outcome `Run` gives from the initial state and the character `'\0'` |

## Left out

- Terminal mode setup and teardown (`SetupScreenAndInput`, `TeardownScreenAndInput`,
  `SetNonblockingReadState`, lines 102-130, 406, 466). These are `termios`/`fcntl` calls. The
  flag they follow, `allowBackgroundProcessing`, is modelled.
- Screen drawing (`ClearScreen`, `MoveTo`, `HideCursor`, `ShowCursor`, `DrawBucket`,
  `DrawSnowflakes`, `DrawScore`, `DrawLives`, `DrawLoseScreen`, lines 133-136, 208-234, 273-305,
  425-430, 461-462). These are output only and change no state.
- `GetTerminalSize` (lines 137-163): a terminal query and reply parse. Its result is
  `RunGame`'s `terminalSize` parameter; only the size test at line 358 is modelled.
- Wall-clock timing with `chrono` (lines 381-399). Whether 100 ms have passed is the
  `intervalElapsed` field of each `LoopInput`.
- `read` (line 456). The character it delivers, or none when a non-blocking read finds nothing,
  is the `received` field of each `LoopInput`.
- The command-line branch (lines 444-453) and `currentCommand`. `showCommandline` is initialised
  to false and never set, so the branch cannot run.
- `rand()`, `default_random_engine` and the unused distributions (lines 75, 90-92, 290). The
  value `rand()` returns is a parameter; the unused ones have no effect.
- `cerr` tracing (lines 288, 402, 451): diagnostic output only.
- `CREATE_CHAR` is an empty-initialised `char`, that is `'\0'`. It only seeds `currentChar`
  before the first tick and matches no command.
- Game.Game.Play: the C++ loop may run forever. The model consumes a finite sequence of inputs
  and reports `InputExhausted` when they run out.
- Drawing the bucket's base (line 278) puts it on row 31, one row below the last row of a
  30-row window that the size test at line 358 accepts. Drawing is not modelled, and
  `ReachableStateFitsTerminal` covers only the bucket's rim on row 30.
