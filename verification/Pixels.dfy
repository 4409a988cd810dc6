/** Buffers of four-byte pixels, row after row. */
module Pixels {

  type Color = c: int | 0 <= c < 0x1_0000_0000

  /** Word x of row y in a buffer of `words` words a row. */
  function At(words: nat, x: nat, y: nat): nat { y * words + x }

  lemma Spread(m: nat, n: nat, width: nat)
    ensures m < n ==> m * width + width <= n * width
  {
    if m < n {
      assert n * width == (n - 1) * width + width;
      Spread(m, n - 1, width);
    }
  }

  lemma AtIsInside(words: nat, h: nat, x: nat, y: nat)
    requires x < words && y < h
    ensures At(words, x, y) < words * h
  {
    Spread(y, h, words);
  }

  lemma AtIsInjective(words: nat, x: nat, y: nat, u: nat, v: nat)
    requires x < words && u < words && At(words, x, y) == At(words, u, v)
    ensures x == u && y == v
  {
    Spread(y, v, words);
    Spread(v, y, words);
  }

  /** A run of words within a row: the last one is inside the buffer, too. */
  lemma RowIsInside(words: nat, h: nat, x: nat, y: nat, n: nat)
    requires x + n <= words && y < h
    ensures At(words, x, y) + n <= words * h
    ensures forall u: nat :: x <= u < x + n ==> At(words, u, y) == At(words, x, y) + (u - x)
  {
    Spread(y, h, words);
  }
}
