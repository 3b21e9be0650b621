/** The entities of the snowfall game and the rules that move them: the bucket's horizontal
    movement, gravity on the snowflakes, the catch/miss pass and the spawning of a snowflake.
    Grid coordinates are 1-indexed from the top-left corner. */
module Entities {
  import opened Uint32
  import opened Ansi

  // Input characters.
  const NULL_CHAR: char := 'z'
  const LEFT_CHAR: char := 'a'
  const RIGHT_CHAR: char := 'd'
  const QUIT_CHAR: char := 'q'
  const CREATE_CHAR: char := '\0'
  const BLOCKING_CHAR: char := 'b'
  const COMMAND_CHAR: char := 'o'

  // Geometry of the playing field.
  const BUCKET_ROW: int := 30
  const BUCKET_START_COL: int := 25
  const MIN_BUCKET_COL: int := 1
  const MAX_BUCKET_COL: int := 40
  /** The bucket glyph `\       /` is nine characters wide, drawn from the bucket's column. */
  const BUCKET_WIDTH: int := 9
  /** A snowflake at this row may land in the bucket. */
  const CATCH_ROW: int := 29
  /** A snowflake at this row has reached the ground: it costs a life. */
  const GROUND_ROW: int := 30
  const SPAWN_ROW: int := 1
  const MIN_SPAWN_COL: int := 3
  const SPAWN_COLUMNS: int := 45

  datatype Position = Position(row: int, col: int)
  datatype Snowflake = Snowflake(position: Position, colour: u32)
  datatype Bucket = Bucket(position: Position, colour: u32)

  function Abs(x: int): int {
    if x < 0 then -x else x
  }

  function Max(a: int, b: int): int {
    if a < b then b else a
  }

  function Min(a: int, b: int): int {
    if a < b then a else b
  }

  // ---------------------------------------------------------------- bucket

  /** The column change a command asks for: left, right or none. */
  function ColumnChange(c: char): (d: int)
    ensures -1 <= d <= 1
    ensures d == -1 <==> c == LEFT_CHAR
    ensures d == 1 <==> c == RIGHT_CHAR
  {
    (if c == LEFT_CHAR then -1 else 0) + (if c == RIGHT_CHAR then 1 else 0)
  }

  /** The bucket's column after one input character: always in [1,40]; from a column already in
      range, 'a' steps left and 'd' steps right unless at the wall, and every other character,
      including the reset value 'z', leaves it alone. */
  function MovedColumn(col: int, c: char): (r: int)
    ensures MIN_BUCKET_COL <= r <= MAX_BUCKET_COL
    ensures MIN_BUCKET_COL <= col <= MAX_BUCKET_COL ==>
              r == if c == LEFT_CHAR then Max(MIN_BUCKET_COL, col - 1)
                   else if c == RIGHT_CHAR then Min(MAX_BUCKET_COL, col + 1)
                   else col
  {
    Max(MIN_BUCKET_COL, Min(MAX_BUCKET_COL, col + ColumnChange(c)))
  }

  /** `UpdateBucketPosition`: only the column of the bucket changes. */
  function MoveBucket(b: Bucket, c: char): (r: Bucket)
    ensures r.position.row == b.position.row && r.colour == b.colour
    ensures MIN_BUCKET_COL <= r.position.col <= MAX_BUCKET_COL
  {
    b.(position := b.position.(col := MovedColumn(b.position.col, c)))
  }

  // ---------------------------------------------------------------- gravity

  /** One gravity step on one snowflake: it moves down one row while its row is at most 30. */
  function Fall(f: Snowflake): (r: Snowflake)
    ensures r.colour == f.colour && r.position.col == f.position.col
    ensures f.position.row <= GROUND_ROW ==> r.position.row == f.position.row + 1
    ensures f.position.row > GROUND_ROW ==> r == f
  {
    if f.position.row <= GROUND_ROW then f.(position := f.position.(row := f.position.row + 1)) else f
  }

  /** `GravityOnSnowflake`: same length, same columns and colours, every row at most 30 one lower
      on the screen, every other row untouched. */
  function Gravity(s: seq<Snowflake>): (r: seq<Snowflake>)
    ensures |r| == |s|
    ensures forall i :: 0 <= i < |s| ==>
              && r[i].colour == s[i].colour
              && r[i].position.col == s[i].position.col
              && r[i].position.row == if s[i].position.row <= GROUND_ROW then s[i].position.row + 1
                                      else s[i].position.row
  {
    if s == [] then [] else [Fall(s[0])] + Gravity(s[1..])
  }

  // ---------------------------------------------------------------- catch and miss

  /** The catch test `row == 29 and abs(col - bucketCol - 4) <= 4`: the snowflake is at the catch
      row and within the nine columns the bucket glyph covers. */
  function IsCaught(f: Snowflake, b: Bucket): (caught: bool)
    ensures caught <==> f.position.row == CATCH_ROW
                        && b.position.col <= f.position.col <= b.position.col + BUCKET_WIDTH - 1
  {
    f.position.row == CATCH_ROW && Abs(f.position.col - b.position.col - 4) <= 4
  }

  /** A snowflake that stays in play after the catch/miss pass. */
  predicate Kept(f: Snowflake, b: Bucket)
    ensures Kept(f, b) <==> f.position.row <= GROUND_ROW
                            && !(f.position.row == CATCH_ROW
                                 && b.position.col <= f.position.col <= b.position.col + BUCKET_WIDTH - 1)
  {
    !IsCaught(f, b) && f.position.row <= GROUND_ROW
  }

  /** A kept snowflake that has reached the ground; the ground lies below the catch row, so this is
      every snowflake on the ground, wherever the bucket is. */
  predicate Missed(f: Snowflake, b: Bucket)
    ensures Missed(f, b) <==> f.position.row == GROUND_ROW
  {
    Kept(f, b) && f.position.row == GROUND_ROW
  }

  /** The snowflake vector after `IntersectionWithSnowflake`, built front to back as the loop does:
      exactly the snowflakes of `s` that are kept. */
  function Survivors(s: seq<Snowflake>, b: Bucket): (r: seq<Snowflake>)
    ensures |r| <= |s|
    ensures forall f :: f in r <==> f in s && Kept(f, b)
  {
    if s == [] then []
    else
      var init, last := s[..|s| - 1], s[|s| - 1];
      assert s == init + [last];
      Survivors(init, b) + (if Kept(last, b) then [last] else [])
  }

  /** How many snowflakes of `s` the bucket catches: the points the pass awards. */
  function CaughtCount(s: seq<Snowflake>, b: Bucket): (n: nat)
    ensures n <= |s|
    ensures n == 0 <==> forall i :: 0 <= i < |s| ==> !IsCaught(s[i], b)
  {
    if s == [] then 0
    else CaughtCount(s[..|s| - 1], b) + (if IsCaught(s[|s| - 1], b) then 1 else 0)
  }

  /** How many snowflakes of `s` are missed: the lives the pass takes. */
  function MissedCount(s: seq<Snowflake>, b: Bucket): (n: nat)
    ensures n <= |s|
    ensures n == 0 <==> forall i :: 0 <= i < |s| ==> s[i].position.row != GROUND_ROW
  {
    if s == [] then 0
    else MissedCount(s[..|s| - 1], b) + (if Missed(s[|s| - 1], b) then 1 else 0)
  }

  /** The number of snowflakes of `s` at the given row. */
  function CountAtRow(s: seq<Snowflake>, row: int): nat {
    if s == [] then 0
    else CountAtRow(s[..|s| - 1], row) + (if s[|s| - 1].position.row == row then 1 else 0)
  }

  /** `r` is `s` with some elements left out, the others in their original order. */
  ghost predicate IsSubsequence<T>(r: seq<T>, s: seq<T>)
    decreases |s|
  {
    if r == [] then true
    else if s == [] then false
    else if r[|r| - 1] == s[|s| - 1] then IsSubsequence(r[..|r| - 1], s[..|s| - 1])
    else IsSubsequence(r, s[..|s| - 1])
  }

  /** The pass keeps its snowflakes in order and does not change any of them. */
  lemma {:induction false} SurvivorsIsSubsequence(s: seq<Snowflake>, b: Bucket)
    ensures IsSubsequence(Survivors(s, b), s)
  {
    if s != [] {
      var init, last := s[..|s| - 1], s[|s| - 1];
      var r := Survivors(s, b);
      SurvivorsIsSubsequence(init, b);
      if Kept(last, b) {
        assert r[..|r| - 1] == Survivors(init, b);
      } else {
        assert r == Survivors(init, b);
        if r != [] {
          assert r[|r| - 1] in r;
        }
      }
    }
  }

  /** The lives taken are exactly the kept snowflakes that sit on the ground row. */
  lemma {:induction false} MissedAreGroundSurvivors(s: seq<Snowflake>, b: Bucket)
    ensures MissedCount(s, b) == CountAtRow(Survivors(s, b), GROUND_ROW)
  {
    if s != [] {
      var init, last := s[..|s| - 1], s[|s| - 1];
      MissedAreGroundSurvivors(init, b);
      var r := Survivors(s, b);
      if Kept(last, b) {
        assert r == Survivors(init, b) + [last];
        assert r[..|r| - 1] == Survivors(init, b) && r[|r| - 1] == last;
        assert CountAtRow(r, GROUND_ROW)
            == CountAtRow(Survivors(init, b), GROUND_ROW) + (if last.position.row == GROUND_ROW then 1 else 0);
      } else {
        assert r == Survivors(init, b);
      }
    }
  }

  /** The number of snowflakes of `s` on a row past the ground row, which the pass discards. */
  function CountBelowGround(s: seq<Snowflake>): (n: nat)
    ensures n <= |s|
    ensures n == 0 <==> forall i :: 0 <= i < |s| ==> s[i].position.row <= GROUND_ROW
  {
    if s == [] then 0
    else CountBelowGround(s[..|s| - 1]) + (if s[|s| - 1].position.row > GROUND_ROW then 1 else 0)
  }

  /** Every snowflake of the pass is exactly one of: caught (a point), kept, or past the ground
      row and discarded. */
  lemma {:induction false} CaughtOrKept(s: seq<Snowflake>, b: Bucket)
    ensures CaughtCount(s, b) + |Survivors(s, b)| + CountBelowGround(s) == |s|
  {
    if s != [] {
      CaughtOrKept(s[..|s| - 1], b);
    }
  }

  /** Each kept snowflake survives as many times as it occurs, every other one not at all. */
  lemma {:induction false} SurvivorsMultiplicity(s: seq<Snowflake>, b: Bucket, f: Snowflake)
    ensures multiset(Survivors(s, b))[f] == if Kept(f, b) then multiset(s)[f] else 0
  {
    if s != [] {
      var init, last := s[..|s| - 1], s[|s| - 1];
      assert s == init + [last];
      SurvivorsMultiplicity(init, b, f);
      assert multiset(s) == multiset(init) + multiset([last]);
      if Kept(last, b) {
        assert multiset(Survivors(s, b)) == multiset(Survivors(init, b)) + multiset([last]);
      } else {
        assert Survivors(s, b) == Survivors(init, b);
      }
    }
  }

  // ---------------------------------------------------------------- spawning

  /** The snowflake `CreateSnowflake` appends, from the value `rand()` returned: top row, a column
      in [3,47], blue. */
  function NewSnowflake(randomValue: nat): (f: Snowflake)
    ensures f.position.row == SPAWN_ROW && f.colour == COLOUR_BLUE
    ensures MIN_SPAWN_COL <= f.position.col <= MIN_SPAWN_COL + SPAWN_COLUMNS - 1
  {
    Snowflake(Position(SPAWN_ROW, MIN_SPAWN_COL + randomValue % SPAWN_COLUMNS), COLOUR_BLUE)
  }

  /** Every column in [3,47] is one `rand()` can produce. */
  lemma SpawnColumnsCovered(col: int)
    requires MIN_SPAWN_COL <= col <= MIN_SPAWN_COL + SPAWN_COLUMNS - 1
    ensures NewSnowflake(col - MIN_SPAWN_COL).position.col == col
  {
  }
}
