/** The values `Math.random()` returns, supplied by the caller instead of drawn. */
module Random {

  /** A value of `Math.random()`: a number in [0, 1). */
  type Uniform = r: real | 0.0 <= r < 1.0

  /** `Math.floor(r * n)`: the index a draw picks among `n` choices. */
  function Scaled(r: Uniform, n: nat): (k: nat)
    requires n > 0
    ensures k < n
  {
    ScaledBounds(r, n);
    (r * n as real).Floor
  }

  lemma ScaledBounds(r: Uniform, n: nat)
    requires n > 0
    ensures 0 <= (r * n as real).Floor < n
  {
    assert 0.0 <= r * n as real;
    assert r * n as real < 1.0 * n as real;
  }
}
