/** The game state and the per-tick simulation step of `main`. `World` is the state as a value and
    `Step` the specification of one tick; the class `Game` holds the same state in fields that its
    methods update in place, each method proved against the specification. */
module Game {
  import opened Uint32
  import opened Ansi
  import opened Entities

  /** Gravity and the catch/miss pass run on every fifth tick. */
  const GRAVITY_PERIOD: int := 5
  /** A snowflake is spawned on every twenty-fifth tick. */
  const SPAWN_PERIOD: int := 25
  const START_LIVES: u32 := 3
  const MIN_TERMINAL_ROWS: int := 30
  const MIN_TERMINAL_COLS: int := 50

  /** Everything the simulation changes: the bucket, the snowflake vector, the `points` and
      `lives` counters, the tick counter and the background-processing flag. */
  datatype World = World(bucket: Bucket, snowflakes: seq<Snowflake>, points: u32, lives: u32,
                         ticks: u32, background: bool)

  /** The state `main` sets up before its loop: a reachable state, with lives to play. */
  function InitialWorld(): (w: World)
    ensures Inv(w) && w.lives > 0 && w.snowflakes == []
  {
    World(Bucket(Position(BUCKET_ROW, BUCKET_START_COL), COLOUR_BLUE), [], 0, START_LIVES, 0, true)
  }

  /** `GravityOnSnowflake` followed by `IntersectionWithSnowflake`: only the snowflakes, points and
      lives change; every snowflake that stays has not fallen below the ground, and every fallen
      snowflake is accounted for as caught, kept, or discarded below the ground. */
  function FallAndResolve(w: World): (r: World)
    ensures r.bucket == w.bucket && r.ticks == w.ticks && r.background == w.background
    ensures forall i :: 0 <= i < |r.snowflakes| ==> r.snowflakes[i].position.row <= GROUND_ROW
    ensures CaughtCount(Gravity(w.snowflakes), w.bucket) + |r.snowflakes|
              + CountBelowGround(Gravity(w.snowflakes)) == |w.snowflakes|
  {
    var fallen := Gravity(w.snowflakes);
    CaughtOrKept(fallen, w.bucket);
    assert forall i :: 0 <= i < |Survivors(fallen, w.bucket)| ==> Survivors(fallen, w.bucket)[i] in Survivors(fallen, w.bucket);
    w.(snowflakes := Survivors(fallen, w.bucket),
       points := WrapAdd(w.points, CaughtCount(fallen, w.bucket)),
       lives := WrapSub(w.lives, MissedCount(fallen, w.bucket)))
  }

  /** One tick of `main` on input character `c`, with `randomValue` the value `rand()` returns
      should a snowflake be spawned. */
  function Step(w: World, c: char, randomValue: nat): (r: World)
    ensures r.ticks == WrapAdd(w.ticks, 1)
    ensures r.background <==> (w.background != (c == BLOCKING_CHAR))
    ensures r.bucket == MoveBucket(w.bucket, c)
    ensures r.ticks % GRAVITY_PERIOD != 0 ==>
              r.snowflakes == w.snowflakes && r.points == w.points && r.lives == w.lives
    ensures r.ticks % GRAVITY_PERIOD == 0 ==>
              && r.points == WrapAdd(w.points, CaughtCount(Gravity(w.snowflakes), r.bucket))
              && r.lives == WrapSub(w.lives, MissedCount(Gravity(w.snowflakes), r.bucket))
    ensures r.snowflakes == (if r.ticks % GRAVITY_PERIOD == 0 then Survivors(Gravity(w.snowflakes), r.bucket)
                             else w.snowflakes)
                            + (if r.ticks % SPAWN_PERIOD == 0 then [NewSnowflake(randomValue)] else [])
  {
    var ticks := WrapAdd(w.ticks, 1);
    SpawnTickIsGravityTick(ticks);
    var moved := w.(ticks := ticks,
                    background := if c == BLOCKING_CHAR then !w.background else w.background,
                    bucket := MoveBucket(w.bucket, c));
    var resolved := if ticks % GRAVITY_PERIOD == 0 then FallAndResolve(moved) else moved;
    if ticks % SPAWN_PERIOD == 0 then resolved.(snowflakes := resolved.snowflakes + [NewSnowflake(randomValue)])
    else resolved
  }

  // ---------------------------------------------------------------- reachable states

  ghost predicate OnScreen(f: Snowflake) {
    && SPAWN_ROW <= f.position.row <= GROUND_ROW
    && MIN_SPAWN_COL <= f.position.col <= MIN_SPAWN_COL + SPAWN_COLUMNS - 1
    && f.colour == COLOUR_BLUE
  }

  /** Older snowflakes come first and are at least five rows lower than any younger one. */
  ghost predicate Spaced(s: seq<Snowflake>) {
    forall i, j :: 0 <= i < j < |s| ==> s[j].position.row + GRAVITY_PERIOD <= s[i].position.row
  }

  /** Gravity passes since the last spawn tick. */
  function PassesSinceSpawn(ticks: u32): int {
    (ticks / GRAVITY_PERIOD) % (SPAWN_PERIOD / GRAVITY_PERIOD)
  }

  /** What holds of the snowflake vector in every state the game loop reaches, given the tick count. */
  ghost predicate SnowInv(s: seq<Snowflake>, ticks: u32) {
    && (forall i :: 0 <= i < |s| ==> OnScreen(s[i]))
    && Spaced(s)
    && (s != [] ==> s[|s| - 1].position.row >= SPAWN_ROW + PassesSinceSpawn(ticks))
  }

  /** What holds of every state the game loop reaches. */
  ghost predicate Inv(w: World) {
    && w.bucket.position.row == BUCKET_ROW
    && MIN_BUCKET_COL <= w.bucket.position.col <= MAX_BUCKET_COL
    && w.bucket.colour == COLOUR_BLUE
    && SnowInv(w.snowflakes, w.ticks)
  }

  /** Every spawn tick is also a gravity tick. */
  lemma SpawnTickIsGravityTick(t: int)
    ensures t % SPAWN_PERIOD == 0 ==> t % GRAVITY_PERIOD == 0
  {
    if t % SPAWN_PERIOD == 0 {
      assert t == GRAVITY_PERIOD * (5 * (t / SPAWN_PERIOD));
    }
  }

  /** On a tick that is a multiple of five, the tick is a multiple of twenty-five exactly when
      the number of fives in it is a multiple of five. */
  lemma SpawnTickByPasses(u: int)
    ensures (5 * u) % SPAWN_PERIOD == 5 * (u % 5)
  {
    assert 5 * u == SPAWN_PERIOD * (u / 5) + 5 * (u % 5);
  }

  /** How the tick counter drives the schedule, including the wrap from 2^32 - 1 to 0: the count
      of gravity passes since the last spawn grows by one on a gravity tick and restarts at zero on
      a spawn tick, which is always a gravity tick as well. */
  lemma TickArithmetic(k: u32)
    ensures var t := WrapAdd(k, 1);
            && (t % GRAVITY_PERIOD != 0 ==> t % SPAWN_PERIOD != 0 && PassesSinceSpawn(t) == PassesSinceSpawn(k))
            && (t % GRAVITY_PERIOD == 0 && t % SPAWN_PERIOD != 0 ==> PassesSinceSpawn(t) == PassesSinceSpawn(k) + 1)
            && (t % SPAWN_PERIOD == 0 ==> t % GRAVITY_PERIOD == 0 && PassesSinceSpawn(k) == 4 && PassesSinceSpawn(t) == 0)
  {
    var t := WrapAdd(k, 1);
    SpawnTickIsGravityTick(t);
    var q, m := k / GRAVITY_PERIOD, k % GRAVITY_PERIOD;
    assert k == GRAVITY_PERIOD * q + m;
    if k == WORD - 1 {
      assert t == 0;
      assert q == 858993459 && PassesSinceSpawn(k) == 4;
    } else if m < 4 {
      assert t == GRAVITY_PERIOD * q + (m + 1);
      assert t / GRAVITY_PERIOD == q && t % GRAVITY_PERIOD == m + 1;
    } else {
      var u := q + 1;
      assert t == GRAVITY_PERIOD * u;
      assert t / GRAVITY_PERIOD == u && t % GRAVITY_PERIOD == 0;
      SpawnTickByPasses(u);
      assert PassesSinceSpawn(t) == u % 5 && PassesSinceSpawn(k) == q % 5;
    }
  }

  lemma SpacedYoungestIsHighest(s: seq<Snowflake>, f: Snowflake)
    requires Spaced(s) && f in s
    ensures f.position.row >= s[|s| - 1].position.row
  {
  }

  lemma {:induction false} SurvivorsSpaced(s: seq<Snowflake>, b: Bucket)
    requires Spaced(s)
    ensures Spaced(Survivors(s, b))
  {
    if s != [] {
      var init, last := s[..|s| - 1], s[|s| - 1];
      assert Spaced(init);
      SurvivorsSpaced(init, b);
      if Kept(last, b) {
        var r := Survivors(s, b);
        var r0 := Survivors(init, b);
        assert r == r0 + [last];
        forall i, j | 0 <= i < j < |r|
          ensures r[j].position.row + GRAVITY_PERIOD <= r[i].position.row
        {
          if j == |r| - 1 {
            assert r[i] == r0[i] && r0[i] in init;
          } else {
            assert r[i] == r0[i] && r[j] == r0[j];
          }
        }
      }
    }
  }

  lemma {:induction false} NoneMissedOffGround(s: seq<Snowflake>, b: Bucket)
    requires forall i :: 0 <= i < |s| ==> s[i].position.row != GROUND_ROW
    ensures MissedCount(s, b) == 0
  {
    if s != [] {
      NoneMissedOffGround(s[..|s| - 1], b);
    }
  }

  /** Snowflakes five rows apart cannot both be on the ground: one pass costs at most one life. */
  lemma {:induction false} AtMostOneMissed(s: seq<Snowflake>, b: Bucket)
    requires Spaced(s)
    ensures MissedCount(s, b) <= 1
  {
    if s != [] {
      var init, last := s[..|s| - 1], s[|s| - 1];
      assert Spaced(init);
      if Missed(last, b) {
        NoneMissedOffGround(init, b);
      } else {
        AtMostOneMissed(init, b);
      }
    }
  }

  /** A fallen snowflake of a reachable state: one row lower, still in its column, not yet removed. */
  ghost predicate FallenOnScreen(f: Snowflake) {
    && SPAWN_ROW + 1 <= f.position.row <= GROUND_ROW + 1
    && MIN_SPAWN_COL <= f.position.col <= MIN_SPAWN_COL + SPAWN_COLUMNS - 1
    && f.colour == COLOUR_BLUE
  }

  lemma GravityShape(s: seq<Snowflake>)
    requires (forall i :: 0 <= i < |s| ==> OnScreen(s[i])) && Spaced(s)
    ensures var g := Gravity(s);
            && Spaced(g)
            && (forall f :: f in g ==> FallenOnScreen(f))
            && (s != [] ==> g[|g| - 1].position.row == s[|s| - 1].position.row + 1)
  {
    var g := Gravity(s);
    assert forall i :: 0 <= i < |g| ==> FallenOnScreen(g[i]);
  }

  lemma SurvivorsOnScreen(g: seq<Snowflake>, b: Bucket)
    requires forall f :: f in g ==> FallenOnScreen(f)
    ensures var r := Survivors(g, b); forall i :: 0 <= i < |r| ==> OnScreen(r[i]) && r[i].position.row >= 2
  {
    var r := Survivors(g, b);
    forall i | 0 <= i < |r|
      ensures OnScreen(r[i]) && r[i].position.row >= 2
    {
      assert r[i] in r;
    }
  }

  /** The fallen snowflakes of a reachable state, after the catch/miss pass, are still spaced and
      on screen, and the youngest of them is at least one row lower than the youngest before. */
  lemma FallAndResolveShape(s: seq<Snowflake>, ticks: u32, b: Bucket)
    requires SnowInv(s, ticks)
    ensures var r := Survivors(Gravity(s), b);
            && Spaced(r)
            && (forall i :: 0 <= i < |r| ==> OnScreen(r[i]) && r[i].position.row >= 2)
            && (r != [] ==> r[|r| - 1].position.row >= SPAWN_ROW + PassesSinceSpawn(ticks) + 1)
  {
    var g := Gravity(s);
    var r := Survivors(g, b);
    GravityShape(s);
    SurvivorsSpaced(g, b);
    SurvivorsOnScreen(g, b);
    if r != [] {
      assert r[|r| - 1] in g;
      SpacedYoungestIsHighest(g, r[|r| - 1]);
    }
  }

  /** A spawn appends a snowflake at the top row: the older ones are at least six rows down. */
  lemma SpawnKeepsSpacing(s: seq<Snowflake>, f: Snowflake)
    requires (forall i :: 0 <= i < |s| ==> OnScreen(s[i])) && Spaced(s)
    requires s != [] ==> s[|s| - 1].position.row >= SPAWN_ROW + GRAVITY_PERIOD
    requires OnScreen(f) && f.position.row == SPAWN_ROW
    ensures (forall i :: 0 <= i < |s + [f]| ==> OnScreen((s + [f])[i])) && Spaced(s + [f])
  {
    var r := s + [f];
    forall i, j | 0 <= i < j < |r|
      ensures r[j].position.row + GRAVITY_PERIOD <= r[i].position.row
    {
      if j == |s| {
        assert s[i] in s;
        SpacedYoungestIsHighest(s, s[i]);
      }
    }
  }

  /** A tick without gravity leaves the snowflakes alone and the gravity-pass count unchanged. */
  lemma QuietTickSnowInv(s: seq<Snowflake>, k: u32)
    requires SnowInv(s, k) && WrapAdd(k, 1) % GRAVITY_PERIOD != 0
    ensures WrapAdd(k, 1) % SPAWN_PERIOD != 0 && SnowInv(s, WrapAdd(k, 1))
  {
    TickArithmetic(k);
  }

  /** A gravity tick that spawns nothing. */
  lemma FallTickSnowInv(s: seq<Snowflake>, k: u32, b: Bucket)
    requires SnowInv(s, k) && WrapAdd(k, 1) % GRAVITY_PERIOD == 0 && WrapAdd(k, 1) % SPAWN_PERIOD != 0
    ensures SnowInv(Survivors(Gravity(s), b), WrapAdd(k, 1))
  {
    TickArithmetic(k);
    FallAndResolveShape(s, k, b);
  }

  /** A gravity tick followed by a spawn. */
  lemma SpawnTickSnowInv(s: seq<Snowflake>, k: u32, b: Bucket, randomValue: nat)
    requires SnowInv(s, k) && WrapAdd(k, 1) % SPAWN_PERIOD == 0
    ensures WrapAdd(k, 1) % GRAVITY_PERIOD == 0
    ensures SnowInv(Survivors(Gravity(s), b) + [NewSnowflake(randomValue)], WrapAdd(k, 1))
  {
    TickArithmetic(k);
    FallAndResolveShape(s, k, b);
    SpawnKeepsSpacing(Survivors(Gravity(s), b), NewSnowflake(randomValue));
  }

  /** Every tick keeps the game in a reachable state. */
  lemma StepPreservesInv(w: World, c: char, randomValue: nat)
    requires Inv(w)
    ensures Inv(Step(w, c, randomValue))
  {
    var t := WrapAdd(w.ticks, 1);
    var b := MoveBucket(w.bucket, c);
    if t % SPAWN_PERIOD == 0 {
      SpawnTickSnowInv(w.snowflakes, w.ticks, b, randomValue);
    } else if t % GRAVITY_PERIOD == 0 {
      FallTickSnowInv(w.snowflakes, w.ticks, b);
    } else {
      QuietTickSnowInv(w.snowflakes, w.ticks);
    }
  }

  /** While lives remain, a tick takes at most one: the unsigned `lives` never wraps. */
  lemma StepLosesAtMostOneLife(w: World, c: char, randomValue: nat)
    requires Inv(w) && w.lives > 0
    ensures w.lives - 1 <= Step(w, c, randomValue).lives <= w.lives
  {
    var t := WrapAdd(w.ticks, 1);
    var r := Step(w, c, randomValue);
    if t % GRAVITY_PERIOD == 0 {
      var b := MoveBucket(w.bucket, c);
      var g := Gravity(w.snowflakes);
      GravityShape(w.snowflakes);
      AtMostOneMissed(g, b);
      assert r.lives == WrapSub(w.lives, MissedCount(g, b));
    }
  }

  /** A snowflake keeps its column and colour for its whole life: every snowflake after a tick is
      the one just spawned or has the column and colour of one from before the tick. */
  lemma StepKeepsColumns(w: World, c: char, randomValue: nat)
    ensures forall f :: f in Step(w, c, randomValue).snowflakes ==>
              f == NewSnowflake(randomValue)
              || exists g :: g in w.snowflakes && g.position.col == f.position.col && g.colour == f.colour
  {
    var r := Step(w, c, randomValue);
    var t := WrapAdd(w.ticks, 1);
    var b := MoveBucket(w.bucket, c);
    var g := Gravity(w.snowflakes);
    forall f | f in r.snowflakes && f != NewSnowflake(randomValue)
      ensures exists h :: h in w.snowflakes && h.position.col == f.position.col && h.colour == f.colour
    {
      var before := if t % GRAVITY_PERIOD == 0 then Survivors(g, b) else w.snowflakes;
      assert r.snowflakes == before || r.snowflakes == before + [NewSnowflake(randomValue)];
      assert f in before;
      if t % GRAVITY_PERIOD == 0 {
        var i :| 0 <= i < |g| && g[i] == f;
        assert w.snowflakes[i] in w.snowflakes;
      }
    }
  }

  // ---------------------------------------------------------------- terminal

  /** The size test `main` makes before the game starts. */
  predicate TerminalTooSmall(size: Position)
    ensures !TerminalTooSmall(size) ==>
              && GROUND_ROW <= size.row
              && MIN_SPAWN_COL + SPAWN_COLUMNS - 1 <= size.col
              && MAX_BUCKET_COL + BUCKET_WIDTH - 1 <= size.col
  {
    size.row < MIN_TERMINAL_ROWS || size.col < MIN_TERMINAL_COLS
  }

  /** On a terminal the game accepts, every snowflake of a reachable state and the bucket's rim
      lie inside the window. */
  lemma ReachableStateFitsTerminal(w: World, size: Position)
    requires Inv(w) && !TerminalTooSmall(size)
    ensures forall i :: 0 <= i < |w.snowflakes| ==>
              1 <= w.snowflakes[i].position.row <= size.row && 1 <= w.snowflakes[i].position.col <= size.col
    ensures w.bucket.position.row <= size.row && w.bucket.position.col + BUCKET_WIDTH - 1 <= size.col
  {
    forall i | 0 <= i < |w.snowflakes|
      ensures 1 <= w.snowflakes[i].position.row <= size.row && 1 <= w.snowflakes[i].position.col <= size.col
    {
      assert OnScreen(w.snowflakes[i]);
    }
  }

  // ---------------------------------------------------------------- the game in place

  /** One pass of the loop in `main` as the outside world drives it: whether the 100 ms tick
      interval has elapsed, the character `read` delivered (none when a non-blocking read found
      nothing), and the value `rand()` would return. */
  datatype LoopInput = LoopInput(intervalElapsed: bool, received: Option<char>, randomValue: nat)

  datatype Outcome = Quit | GameOver | InputExhausted

  datatype ExitStatus = ExitSuccess | ExitFailure

  /** What the loop of `main` computes from state `w`, with `currentChar` the character the next
      tick will handle: each input is one pass of the loop, which ticks when background processing
      is off or the interval has elapsed, stops on a tick that leaves no lives, resets the character
      to `z` after a tick, and takes the character `read` delivers, if any. The loop ends on `q`. */
  function Run(w: World, currentChar: char, inputs: seq<LoopInput>): (r: (World, Outcome))
    ensures r.1 == GameOver ==> r.0.lives == 0
    ensures inputs == [] ==> r.0 == w
    decreases |inputs|
  {
    if currentChar == QUIT_CHAR then (w, Quit)
    else if inputs == [] then (w, InputExhausted)
    else
      var input := inputs[0];
      var due := (w.background && input.intervalElapsed) || !w.background;
      var next := if due then Step(w, currentChar, input.randomValue) else w;
      if due && next.lives == 0 then (next, GameOver)
      else
        var afterTick := if due then NULL_CHAR else currentChar;
        Run(next, if input.received.Some? then input.received.value else afterTick, inputs[1..])
  }

  /** From a reachable state with lives left, the loop stays in reachable states, never gains a
      life, and stops for lack of lives exactly when it reports game over. */
  lemma {:induction false} RunKeepsInv(w: World, currentChar: char, inputs: seq<LoopInput>)
    requires Inv(w) && w.lives > 0
    ensures var r := Run(w, currentChar, inputs);
            Inv(r.0) && r.0.lives <= w.lives && (r.1 == GameOver <==> r.0.lives == 0)
    decreases |inputs|
  {
    if currentChar != QUIT_CHAR && inputs != [] {
      var input := inputs[0];
      var due := (w.background && input.intervalElapsed) || !w.background;
      if due {
        StepPreservesInv(w, currentChar, input.randomValue);
        StepLosesAtMostOneLife(w, currentChar, input.randomValue);
      }
      var next := if due then Step(w, currentChar, input.randomValue) else w;
      if !(due && next.lives == 0) {
        var afterTick := if due then NULL_CHAR else currentChar;
        RunKeepsInv(next, if input.received.Some? then input.received.value else afterTick, inputs[1..]);
      }
    }
  }

  /** The loop reports `Quit` only after a `q` (pending or read), and runs out of inputs only when
      none was read. */
  lemma {:induction false} RunQuitsOnlyOnQ(w: World, currentChar: char, inputs: seq<LoopInput>)
    ensures var r := Run(w, currentChar, inputs);
            && (r.1 == Quit ==>
                  currentChar == QUIT_CHAR || exists k :: 0 <= k < |inputs| && inputs[k].received == Some(QUIT_CHAR))
            && (r.1 == InputExhausted ==>
                  currentChar != QUIT_CHAR && forall k :: 0 <= k < |inputs| ==> inputs[k].received != Some(QUIT_CHAR))
    decreases |inputs|
  {
    if currentChar != QUIT_CHAR && inputs != [] {
      var input := inputs[0];
      var due := (w.background && input.intervalElapsed) || !w.background;
      var next := if due then Step(w, currentChar, input.randomValue) else w;
      if !(due && next.lives == 0) {
        var afterTick := if due then NULL_CHAR else currentChar;
        var c := if input.received.Some? then input.received.value else afterTick;
        var rest := inputs[1..];
        RunQuitsOnlyOnQ(next, c, rest);
        var r := Run(w, currentChar, inputs);
        assert r == Run(next, c, rest);
        if r.1 == Quit {
          if c == QUIT_CHAR {
            assert inputs[0].received == Some(QUIT_CHAR);
          } else {
            var k :| 0 <= k < |rest| && rest[k].received == Some(QUIT_CHAR);
            assert inputs[k + 1] == rest[k];
          }
        }
        if r.1 == InputExhausted {
          forall k | 0 <= k < |inputs|
            ensures inputs[k].received != Some(QUIT_CHAR)
          {
            if k > 0 {
              assert inputs[k] == rest[k - 1];
            }
          }
        }
      }
    }
  }

  class Game {
    var bucket: Bucket
    var snowflakes: seq<Snowflake>
    var points: u32
    var lives: u32
    var ticks: u32
    var allowBackgroundProcessing: bool

    function Model(): World
      reads this
    {
      World(bucket, snowflakes, points, lives, ticks, allowBackgroundProcessing)
    }

    constructor ()
      ensures Model() == InitialWorld()
    {
      bucket := Bucket(Position(BUCKET_ROW, BUCKET_START_COL), COLOUR_BLUE);
      snowflakes := [];
      points := 0;
      lives := START_LIVES;
      ticks := 0;
      allowBackgroundProcessing := true;
    }

    method ScoreIncrease()
      modifies this`points
      ensures points == WrapAdd(old(points), 1)
    {
      points := WrapAdd(points, 1);
    }

    method LiveDecrease()
      modifies this`lives
      ensures lives == WrapSub(old(lives), 1)
    {
      lives := WrapSub(lives, 1);
    }

    /** `CheckLives`: the game goes on exactly when one more `lives--` would not wrap. */
    predicate CheckLives()
      reads this
      ensures !CheckLives() <==> WrapSub(lives, 1) == lives - 1
    {
      lives == 0
    }

    method UpdateBucketPosition(currentChar: char)
      modifies this`bucket
      ensures bucket == MoveBucket(old(bucket), currentChar)
    {
      var commandColChange := 0;
      if currentChar == LEFT_CHAR { commandColChange := commandColChange - 1; }
      if currentChar == RIGHT_CHAR { commandColChange := commandColChange + 1; }
      var proposedCol := bucket.position.col + commandColChange;
      bucket := bucket.(position := bucket.position.(col := Max(MIN_BUCKET_COL, Min(MAX_BUCKET_COL, proposedCol))));
    }

    method GravityOnSnowflake()
      modifies this`snowflakes
      ensures snowflakes == Gravity(old(snowflakes))
    {
      var i := 0;
      while i < |snowflakes|
        invariant 0 <= i <= |snowflakes| == |old(snowflakes)|
        invariant forall k :: 0 <= k < i ==> snowflakes[k] == Fall(old(snowflakes)[k])
        invariant forall k :: i <= k < |snowflakes| ==> snowflakes[k] == old(snowflakes)[k]
      {
        var current := snowflakes[i];
        if current.position.row <= GROUND_ROW {
          snowflakes := snowflakes[i := current.(position := current.position.(row := current.position.row + 1))];
        }
        i := i + 1;
      }
    }

    method IntersectionWithSnowflake()
      modifies this`snowflakes, this`points, this`lives
      ensures snowflakes == Survivors(old(snowflakes), bucket)
      ensures points == WrapAdd(old(points), CaughtCount(old(snowflakes), bucket))
      ensures lives == WrapSub(old(lives), MissedCount(old(snowflakes), bucket))
    {
      var newvec: seq<Snowflake> := [];
      var i := 0;
      while i < |snowflakes|
        invariant 0 <= i <= |snowflakes|
        invariant snowflakes == old(snowflakes)
        invariant newvec == Survivors(snowflakes[..i], bucket)
        invariant points == WrapAdd(old(points), CaughtCount(snowflakes[..i], bucket))
        invariant lives == WrapSub(old(lives), MissedCount(snowflakes[..i], bucket))
      {
        var current := snowflakes[i];
        assert snowflakes[..i + 1][..i] == snowflakes[..i];
        if IsCaught(current, bucket) {
          WrapAddOne(old(points), CaughtCount(snowflakes[..i], bucket));
          ScoreIncrease();
        } else if current.position.row <= GROUND_ROW {
          if current.position.row == GROUND_ROW {
            WrapSubOne(old(lives), MissedCount(snowflakes[..i], bucket));
            LiveDecrease();
          }
          newvec := newvec + [current];
        }
        i := i + 1;
      }
      assert snowflakes[..i] == snowflakes;
      snowflakes := newvec;
    }

    method CreateSnowflake(randomValue: nat)
      modifies this`snowflakes
      ensures snowflakes == old(snowflakes) + [NewSnowflake(randomValue)]
    {
      var newSnowflake := Snowflake(Position(SPAWN_ROW, MIN_SPAWN_COL + randomValue % SPAWN_COLUMNS), COLOUR_BLUE);
      snowflakes := snowflakes + [newSnowflake];
    }

    /** The body of the loop in `main` when a tick is due; `gameOver` is `CheckLives()`. */
    method Tick(currentChar: char, randomValue: nat) returns (gameOver: bool)
      modifies this
      ensures Model() == Step(old(Model()), currentChar, randomValue)
      ensures gameOver <==> lives == 0
    {
      ticks := WrapAdd(ticks, 1);
      if currentChar == BLOCKING_CHAR {
        allowBackgroundProcessing := !allowBackgroundProcessing;
      }
      UpdateBucketPosition(currentChar);
      if ticks % GRAVITY_PERIOD == 0 {
        GravityOnSnowflake();
        IntersectionWithSnowflake();
      }
      if ticks % SPAWN_PERIOD == 0 {
        CreateSnowflake(randomValue);
      }
      gameOver := CheckLives();
    }

    /** The loop of `main`: runs until `q` is read or no lives are left (or the inputs run out),
        computing exactly what `Run` specifies. */
    method Play(inputs: seq<LoopInput>) returns (outcome: Outcome)
      requires Inv(Model()) && lives > 0
      modifies this
      ensures (Model(), outcome) == Run(old(Model()), CREATE_CHAR, inputs)
      ensures Inv(Model())
      ensures outcome == GameOver <==> lives == 0
      ensures lives <= old(lives)
      ensures outcome == Quit ==> exists k :: 0 <= k < |inputs| && inputs[k].received == Some(QUIT_CHAR)
      ensures outcome == InputExhausted ==> forall k :: 0 <= k < |inputs| ==> inputs[k].received != Some(QUIT_CHAR)
    {
      ghost var start := Model();
      RunKeepsInv(start, CREATE_CHAR, inputs);
      RunQuitsOnlyOnQ(start, CREATE_CHAR, inputs);
      var currentChar := CREATE_CHAR;
      var i := 0;
      while currentChar != QUIT_CHAR && i < |inputs|
        invariant 0 <= i <= |inputs|
        invariant Run(Model(), currentChar, inputs[i..]) == Run(start, CREATE_CHAR, inputs)
        decreases |inputs| - i
      {
        var input := inputs[i];
        assert inputs[i..][0] == input && inputs[i..][1..] == inputs[i + 1..];
        if (allowBackgroundProcessing && input.intervalElapsed) || !allowBackgroundProcessing {
          var over := Tick(currentChar, input.randomValue);
          if over {
            return GameOver;
          }
          currentChar := NULL_CHAR;
        }
        if input.received.Some? {
          currentChar := input.received.value;
        }
        i := i + 1;
      }
      assert i == |inputs| ==> inputs[i..] == [];
      outcome := if currentChar == QUIT_CHAR then Quit else InputExhausted;
    }
  }

  /** `main`: refuse a terminal smaller than 30 rows by 50 columns, otherwise play a fresh game. */
  method RunGame(terminalSize: Position, inputs: seq<LoopInput>) returns (status: ExitStatus, outcome: Option<Outcome>)
    ensures status == ExitFailure <==> TerminalTooSmall(terminalSize)
    ensures outcome.Some? <==> status == ExitSuccess
    ensures outcome.Some? ==> outcome.value == Run(InitialWorld(), CREATE_CHAR, inputs).1
  {
    if TerminalTooSmall(terminalSize) {
      return ExitFailure, None;
    }
    var game := new Game();
    var result := game.Play(inputs);
    return ExitSuccess, Some(result);
  }
}
