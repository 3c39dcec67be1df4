/** The process-wide `math/rand` generator, seen from one call.

    The model does not say how values are produced, only where they go: a call
    receives the draws the generator will hand out, in order. `rand.Intn(n)`
    becomes the next raw draw reduced modulo `n`, which can be any value of
    `[0, n)`. Seeding (`init`) and any claim about the distribution are outside
    the model. */
module Random {

  /** The raw values the generator hands out: draw number `k` is `rng(k)`. */
  type Stream = nat -> nat

  /** `rand.Intn(n)` applied to the raw draw `draw`. */
  function Intn(n: nat, draw: nat): (v: nat)
    requires n > 0
    ensures v < n
  {
    draw % n
  }

  /** Every value `rand.Intn(n)` may return is produced by some draw. */
  lemma IntnReaches(n: nat, v: nat)
    requires v < n
    ensures Intn(n, v) == v
  {
  }
}
