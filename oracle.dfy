/** The random source of the program, replaced by an injected oracle.
    The k-th call the program makes to its random module reads entry k of the
    oracle, so a run is a deterministic function of the oracle it is given. */
module Oracle {

  /** A draw of the underlying uniform generator, in [0, 1]. */
  type Unit = u: real | 0.0 <= u <= 1.0

  /** `unit(k)` is what a uniform draw at call k sees, `pick(k)` what a
      choice among a list at call k sees (reduced modulo the list's length). */
  datatype Random = Random(unit: nat -> Unit, pick: nat -> nat)

  /** `random.choice(xs)` made at call `k`. */
  function Choice<T>(rng: Random, k: nat, xs: seq<T>): (x: T)
    requires |xs| > 0
    ensures x in xs
  {
    xs[rng.pick(k) % |xs|]
  }

  /** `random.uniform(lo, hi)` made at call `k`: `lo + (hi - lo) * u`. */
  function Uniform(rng: Random, k: nat, lo: real, hi: real): real
  {
    lo + (hi - lo) * rng.unit(k)
  }

  function Abs(x: real): real { if x < 0.0 then -x else x }

  /** A symmetric uniform draw `uniform(-m, m)` never strays further than
      |m| from zero, whatever the sign of m. */
  lemma UniformSymmetricBound(rng: Random, k: nat, m: real)
    ensures Abs(Uniform(rng, k, -m, m)) <= Abs(m)
  {
    var u: real := rng.unit(k);
    assert Uniform(rng, k, -m, m) == m * (2.0 * u - 1.0);
    var t := 2.0 * u - 1.0;
    assert -1.0 <= t <= 1.0;
    if m >= 0.0 {
      assert -m <= m * t <= m by {
        assert m * (t + 1.0) >= 0.0;
        assert m * (1.0 - t) >= 0.0;
      }
    } else {
      assert m <= m * t <= -m by {
        assert (-m) * (t + 1.0) >= 0.0;
        assert (-m) * (1.0 - t) >= 0.0;
      }
    }
  }
}
