/** C++ `unsigned int` arithmetic: 32 bits wide, wrapping on overflow and underflow.
    The game's `points`, `lives` and `ticks` counters, and the colour codes, are of this type. */
module Uint32 {

  const WORD: int := 0x1_0000_0000

  type u32 = x: int | 0 <= x < WORD

  /** `x` incremented `n` times (`x++`, `x += n`): congruent to `x + n`, and exactly `x + n` without overflow. */
  function WrapAdd(x: u32, n: nat): (r: u32)
    ensures (r - x - n) % WORD == 0
    ensures x + n < WORD ==> r == x + n
  {
    (x + n) % WORD
  }

  /** `x` decremented `n` times (`x--`): congruent to `x - n`, and exactly `x - n` when it does not go below zero. */
  function WrapSub(x: u32, n: nat): (r: u32)
    ensures (x - n - r) % WORD == 0
    ensures n <= x ==> r == x - n
  {
    (x - n) % WORD
  }

  /** One more increment after `n` increments is `n + 1` increments. */
  lemma WrapAddOne(x: u32, n: nat)
    ensures WrapAdd(WrapAdd(x, n), 1) == WrapAdd(x, n + 1)
  {
    var y := WrapAdd(x, n);
    if y == WORD - 1 {
      assert (x + n + 1) % WORD == 0;
    }
  }

  /** One more decrement after `n` decrements is `n + 1` decrements. */
  lemma WrapSubOne(x: u32, n: nat)
    ensures WrapSub(WrapSub(x, n), 1) == WrapSub(x, n + 1)
  {
    var y := WrapSub(x, n);
    if y == 0 {
      assert (x - n) % WORD == 0;
    }
  }

  /** Subtracting what was added gives back the original value, overflow or not. */
  lemma WrapSubUndoesAdd(x: u32, n: nat)
    ensures WrapSub(WrapAdd(x, n), n) == x
  {
    var y := WrapAdd(x, n);
    assert (y - n - x) % WORD == 0;
  }
}
