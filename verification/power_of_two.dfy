/**
  Powers of two and the `next_power_of_two` rounding that the interner uses
  to size a replacement arena.
 */
module PowersOfTwo {

  /** True iff `n` is 1, 2, 4, 8, ... */
  predicate IsPowerOfTwo(n: nat)
    decreases n
  {
    n == 1 || (n >= 2 && n % 2 == 0 && IsPowerOfTwo(n / 2))
  }

  /** Doubles the power of two `p` until it reaches `n`. The precondition says that
      no smaller power of two than `p` could already have reached `n`. */
  function NextPowerOfTwoFrom(p: nat, n: nat): (r: nat)
    requires IsPowerOfTwo(p)
    requires p == 1 || p / 2 < n
    ensures IsPowerOfTwo(r)
    ensures n <= r
    ensures r == 1 || r / 2 < n
    decreases n - p
  {
    if n <= p then p else NextPowerOfTwoFrom(2 * p, n)
  }

  /** The smallest power of two that is at least `n`; zero rounds up to one,
      as Rust's `usize::next_power_of_two` does. */
  function NextPowerOfTwo(n: nat): (r: nat)
    ensures IsPowerOfTwo(r)
    ensures 1 <= r && n <= r
    ensures forall q: nat :: IsPowerOfTwo(q) && n <= q ==> r <= q
  {
    var r := NextPowerOfTwoFrom(1, n);
    RoundedIsLeast(r, n);
    r
  }

  /** A power of two whose half falls short of `n` is below every other power of
      two that reaches `n`. */
  lemma {:induction false} RoundedIsLeast(r: nat, n: nat)
    requires IsPowerOfTwo(r) && n <= r
    requires r == 1 || r / 2 < n
    ensures forall q: nat :: IsPowerOfTwo(q) && n <= q ==> r <= q
  {
    forall q: nat | IsPowerOfTwo(q) && n <= q
      ensures r <= q
    {
      AtLeastOne(q);
      if q < r {
        BelowIsAtMostHalf(r, q);
      }
    }
  }

  /** Every power of two is at least one. */
  lemma {:induction false} AtLeastOne(p: nat)
    requires IsPowerOfTwo(p)
    ensures 1 <= p
  {
  }

  /** Powers of two are spaced by doubling: a smaller one is at most half the larger. */
  lemma {:induction false} BelowIsAtMostHalf(a: nat, b: nat)
    requires IsPowerOfTwo(a) && IsPowerOfTwo(b)
    requires b < a
    ensures b <= a / 2
    decreases a
  {
    AtLeastOne(b);
    if b != 1 {
      BelowIsAtMostHalf(a / 2, b / 2);
    }
  }
}
