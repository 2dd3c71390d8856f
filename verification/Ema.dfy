/**
 lib-device/include/ema.h: the exponential moving average in 16-bit integers. `n` is 2^K throughout.
 */
module EmaFilter {
  import opened Numbers

  const UINT16 := 0x1_0000

  /** kHalf. */
  function Half(n: nat): nat {
    n / 2
  }

  /** The nearest integer to sum / n, halves rounded up. */
  function Rounded(n: nat, sum: nat): nat
    requires n >= 1
  {
    (sum + Half(n)) / n
  }

  function Seeded(n: nat, value: nat): (s: nat)
    ensures s < UINT16
  {
    (value * n % UINT16 - value) % UINT16
  }

  /** New state and output of one call, with every assignment cut to 16 bits. */
  function Filtered(n: nat, state: nat, input: nat): (r: (nat, nat))
    requires n >= 1
    ensures r.0 < UINT16 && r.1 < UINT16
  {
    var sum := (state + input) % UINT16;
    var output := Rounded(n, sum) % UINT16;
    ((sum - output) % UINT16, output)
  }

  class Ema {
    const k: nat
    var state: nat

    constructor (k: nat, initial: nat)
      ensures this.k == k && state == Seeded(Pow2(k), initial)
    {
      this.k := k;
      state := (initial * Pow2(k) % UINT16 - initial) % UINT16;
    }

    method Reset(value: nat)
      modifies `state
      ensures state == Seeded(Pow2(k), value)
    {
      state := (value * Pow2(k) % UINT16 - value) % UINT16;
    }

    method Filter(input: nat) returns (output: nat)
      modifies `state
      ensures (state, output) == Filtered(Pow2(k), old(state), input)
      ensures old(state) + input < UINT16 ==>
                var sum, n := old(state) + input, Pow2(k);
                2 * (output * n) <= 2 * sum + n < 2 * ((output + 1) * n)
    {
      if state + input < UINT16 {
        NearestOutput(Pow2(k), state, input);
      }
      state := (state + input) % UINT16;
      output := (state + Half(Pow2(k))) / Pow2(k) % UINT16;
      state := (state - output) % UINT16;
    }
  }

  // ---------- bounds ----------

  /** The states the filter can be in when everything it saw lies in [lo, hi]. */
  predicate Between(n: nat, state: nat, lo: nat, hi: nat) {
    lo * n - lo <= state <= hi * n - hi
  }

  lemma QuotientBounds(a: nat, n: nat)
    requires n >= 1
    ensures a / n * n <= a < (a / n + 1) * n
  {
  }

  /** `out` is the quotient of sum + n / 2 by n. */
  predicate Quotes(n: nat, sum: nat, out: nat) {
    out * n <= sum + Half(n) < (out + 1) * n
  }

  lemma RoundedQuotes(n: nat, sum: nat)
    requires n >= 1
    ensures Quotes(n, sum, Rounded(n, sum))
  {
    QuotientBounds(sum + Half(n), n);
  }

  lemma RoundedLower(n: nat, sum: nat, lo: nat, out: nat)
    requires n >= 1 && lo * n <= sum && Quotes(n, sum, out)
    ensures lo <= out && lo * n - lo <= sum - out
  {
    if out < lo {
      MulMono(out + 1, lo, n);
    } else if out > lo {
      SurplusPays(n, out - lo);
      assert out * n == lo * n + (out - lo) * n;
    }
  }

  lemma RoundedUpper(n: nat, sum: nat, hi: nat, out: nat)
    requires n >= 1 && sum <= hi * n && Quotes(n, sum, out)
    ensures out <= hi && sum - out <= hi * n - hi
  {
    if out > hi {
      MulMono(hi + 1, out, n);
    } else if out < hi {
      DeficitPays(n, sum, hi, out);
    }
  }

  lemma DeficitPays(n: nat, sum: nat, hi: nat, out: nat)
    requires n >= 1 && out < hi && sum + Half(n) < (out + 1) * n
    ensures sum - out <= hi * n - hi
  {
    var e := hi - out - 1;
    MulMono(1, n, e);
    assert (out + 1) * n == hi * n - e * n;
    assert e * n >= e;
  }

  /** Rounding (sum + n/2) / n: the quotient lies in [lo, hi] and taking it off keeps the state between. */
  lemma RoundedOutput(n: nat, sum: nat, lo: nat, hi: nat)
    requires n >= 1 && lo * n <= sum <= hi * n
    ensures var out := Rounded(n, sum); lo <= out <= hi && lo * n - lo <= sum - out <= hi * n - hi
  {
    RoundedQuotes(n, sum);
    RoundedLower(n, sum, lo, Rounded(n, sum));
    RoundedUpper(n, sum, hi, Rounded(n, sum));
  }

  lemma SurplusPays(n: nat, e: nat)
    requires n >= 1 && e >= 1
    ensures e * n - Half(n) >= e
  {
    assert e * n - e == e * (n - 1) && e * (n - 1) >= n - 1 by {
      MulMono(1, e, n - 1);
    }
  }

  lemma FilteredPlain(n: nat, state: nat, input: nat)
    requires n >= 1 && state + input < UINT16 && Rounded(n, state + input) <= state + input
    ensures Filtered(n, state, input) == (state + input - Rounded(n, state + input), Rounded(n, state + input))
  {
    var sum := state + input;
    var out := Rounded(n, sum);
    SmallMod(sum);
    SmallMod(out);
    SmallMod(sum - out);
  }

  lemma SmallMod(x: nat)
    requires x < UINT16
    ensures x % UINT16 == x
  {
  }

  /** One call: no 16-bit wrap, and output and state stay within the bounds of what was fed in. */
  lemma FilteredBetween(n: nat, state: nat, input: nat, lo: nat, hi: nat)
    requires n >= 1 && hi * n < UINT16
    requires lo <= input <= hi && Between(n, state, lo, hi)
    ensures var (state', output) := Filtered(n, state, input);
            && lo <= output <= hi && Between(n, state', lo, hi)
            && state + input < UINT16 && state' == state + input - output && output == Rounded(n, state + input)
  {
    var sum := state + input;
    RoundedOutput(n, sum, lo, hi);
    MulMono(1, n, lo);
    FilteredPlain(n, state, input);
  }

  function States(n: nat, state: nat, inputs: seq<nat>): nat
    requires n >= 1
  {
    if inputs == [] then state else Filtered(n, States(n, state, inputs[..|inputs| - 1]), inputs[|inputs| - 1]).0
  }

  lemma SeededBetween(n: nat, value: nat, lo: nat, hi: nat)
    requires n >= 1 && lo <= value <= hi && hi * n < UINT16
    ensures Seeded(n, value) == value * n - value && Between(n, Seeded(n, value), lo, hi)
  {
    MulMono(value, hi, n);
    MulMono(lo, value, n - 1);
    MulMono(value, hi, n - 1);
    OneLess(value, n);
    OneLess(lo, n);
    OneLess(hi, n);
    SmallMod(value * n);
    SmallMod(value * n - value);
  }

  lemma OneLess(x: nat, n: nat)
    requires n >= 1
    ensures x * (n - 1) == x * n - x && x <= x * n
  {
    MulMono(1, n, x);
  }

  /** Over every run whose seed and inputs lie in [lo, hi], so does the next output. */
  lemma {:induction false} OutputsBounded(n: nat, seed: nat, inputs: seq<nat>, lo: nat, hi: nat)
    requires n >= 1 && hi * n < UINT16
    requires lo <= seed <= hi && forall i | 0 <= i < |inputs| :: lo <= inputs[i] <= hi
    ensures Between(n, States(n, Seeded(n, seed), inputs), lo, hi)
    ensures forall x | lo <= x <= hi :: lo <= Filtered(n, States(n, Seeded(n, seed), inputs), x).1 <= hi
  {
    SeededBetween(n, seed, lo, hi);
    if inputs != [] {
      var init := inputs[..|inputs| - 1];
      OutputsBounded(n, seed, init, lo, hi);
      FilteredBetween(n, States(n, Seeded(n, seed), init), inputs[|inputs| - 1], lo, hi);
    }
    forall x | lo <= x <= hi ensures lo <= Filtered(n, States(n, Seeded(n, seed), inputs), x).1 <= hi {
      FilteredBetween(n, States(n, Seeded(n, seed), inputs), x, lo, hi);
    }
  }

  // ---------- rounding ----------

  /**
   Without a 16-bit wrap of the sum the output is the integer nearest to it over 2^K, halves rounded
   up, and the output is taken off the sum.
   */
  lemma NearestOutput(n: nat, state: nat, input: nat)
    requires n >= 1 && state + input < UINT16
    ensures var sum, (state', out) := state + input, Filtered(n, state, input);
            && 2 * (out * n) <= 2 * sum + n < 2 * ((out + 1) * n)
            && out <= sum && state' == sum - out
  {
    var sum := state + input;
    var out := Rounded(n, sum);
    RoundedQuotes(n, sum);
    NearestBounds(n, sum, out);
    FilteredPlain(n, state, input);
  }

  lemma NearestBounds(n: nat, sum: nat, out: nat)
    requires n >= 1 && Quotes(n, sum, out)
    ensures 2 * (out * n) <= 2 * sum + n < 2 * ((out + 1) * n) && out <= sum
  {
    TwiceHalf(n, sum, (out + 1) * n);
    if out > sum {
      MulMono(sum + 1, out, n);
      MulMono(1, n, sum);
    }
  }

  lemma TwiceHalf(n: nat, sum: nat, above: nat)
    requires sum + Half(n) < above
    ensures 2 * Half(n) <= n && (2 * Half(n) == n || 2 * Half(n) == n - 1)
    ensures 2 * sum + n <= 2 * above - 1 || (n % 2 == 1 && 2 * sum + n < 2 * above)
  {
  }

  /** A rest of at least half a step rounds up, a smaller one down. */
  lemma RoundsUpIff(n: nat, state: nat, input: nat, q: nat, rest: nat)
    requires n > 1 && state + input < UINT16 && state + input == q * n + rest && rest < n
    ensures Filtered(n, state, input).1 == if 2 * rest >= n then q + 1 else q
  {
    NearestOutput(n, state, input);
    var out := Filtered(n, state, input).1;
    NearestIs(n, q, rest, out);
  }

  lemma NearestIs(n: nat, q: nat, rest: nat, out: nat)
    requires n > 1 && rest < n
    requires 2 * (out * n) <= 2 * (q * n + rest) + n < 2 * ((out + 1) * n)
    ensures out == if 2 * rest >= n then q + 1 else q
  {
    if out < q {
      MulMono(out + 1, q, n);
    } else if out > q + 1 {
      MulMono(q + 2, out, n);
    }
  }

  // ---------- convergence ----------

  /** The state in which a constant input x is reproduced without drift. */
  function Target(n: nat, x: nat): int {
    x * n - x
  }

  function Distance(n: nat, state: nat, x: nat): nat {
    if state <= Target(n, x) then Target(n, x) - state else state - Target(n, x)
  }

  /** m calls with the same input. */
  function Held(n: nat, state: nat, x: nat, m: nat): nat
    requires n >= 1
    decreases m
  {
    if m == 0 then state else Held(n, Filtered(n, state, x).0, x, m - 1)
  }

  lemma StepTowards(n: nat, state: nat, x: nat, bound: nat)
    requires n >= 1 && bound * n < UINT16 && x <= bound && Between(n, state, 0, bound)
    ensures var (state', output) := Filtered(n, state, x);
            && Between(n, state', 0, bound)
            && (output == x ==> state' == state)
            && (output != x ==> Distance(n, state', x) < Distance(n, state, x))
            && (state <= Target(n, x) ==> state <= state' <= Target(n, x) && output <= x)
            && (state >= Target(n, x) ==> Target(n, x) <= state' <= state && output >= x)
  {
    FilteredBetween(n, state, x, 0, bound);
    MulMono(x, bound, n);
    var sum := state + x;
    if state <= Target(n, x) {
      RoundedOutput(n, sum, 0, x);
    } else {
      assert sum <= bound * n;
      RoundedOutput(n, sum, x, bound);
    }
  }

  lemma RoundedMonotone(n: nat, a: nat, b: nat)
    requires n >= 1 && a <= b
    ensures Rounded(n, a) <= Rounded(n, b)
  {
    QuotientBounds(a + Half(n), n);
    QuotientBounds(b + Half(n), n);
    if Rounded(n, a) > Rounded(n, b) {
      MulMono(Rounded(n, b) + 1, Rounded(n, a), n);
    }
  }

  lemma OutputMonotone(n: nat, s1: nat, s2: nat, x: nat, bound: nat)
    requires n >= 1 && bound * n < UINT16 && x <= bound
    requires Between(n, s1, 0, bound) && Between(n, s2, 0, bound) && s1 <= s2
    ensures Filtered(n, s1, x).1 <= Filtered(n, s2, x).1
  {
    OutputOf(n, s1, x, bound);
    OutputOf(n, s2, x, bound);
    RoundedMonotone(n, s1 + x, s2 + x);
  }

  lemma OutputOf(n: nat, state: nat, x: nat, bound: nat)
    requires n >= 1 && bound * n < UINT16 && x <= bound && Between(n, state, 0, bound)
    ensures Filtered(n, state, x).1 == Rounded(n, state + x)
  {
    FilteredBetween(n, state, x, 0, bound);
  }

  lemma {:induction false} HeldFixed(n: nat, state: nat, x: nat, m: nat)
    requires n >= 1 && Filtered(n, state, x).0 == state
    ensures Held(n, state, x, m) == state
    decreases m
  {
    if m > 0 {
      HeldFixed(n, state, x, m - 1);
    }
  }

  /**
   Under a constant input x the output is exactly x after at most the state's distance from
   x * (2^K - 1) calls, and for ever after.
   */
  lemma {:induction false} Converges(n: nat, state: nat, x: nat, bound: nat, m: nat)
    requires n >= 1 && bound * n < UINT16 && x <= bound && Between(n, state, 0, bound)
    requires m >= Distance(n, state, x)
    ensures Filtered(n, Held(n, state, x, m), x) == (Held(n, state, x, m), x)
    decreases m
  {
    StepTowards(n, state, x, bound);
    if Filtered(n, state, x).1 == x {
      HeldFixed(n, state, x, m);
    } else {
      Converges(n, Filtered(n, state, x).0, x, bound, m - 1);
    }
  }

  /** On the way the outputs move monotonically towards x and never past it. */
  lemma {:induction false} ApproachMonotone(n: nat, state: nat, x: nat, bound: nat, m: nat)
    requires n >= 1 && bound * n < UINT16 && x <= bound && Between(n, state, 0, bound)
    ensures var out := Filtered(n, Held(n, state, x, m), x).1;
            var next := Filtered(n, Held(n, state, x, m + 1), x).1;
            if state <= Target(n, x) then out <= next <= x else x <= next <= out
    decreases m
  {
    var (s', out) := Filtered(n, state, x);
    StepTowards(n, state, x, bound);
    if out == x {
      HeldFixed(n, state, x, m);
      HeldFixed(n, state, x, m + 1);
    } else if m > 0 {
      ApproachMonotone(n, s', x, bound, m - 1);
      if s' == Target(n, x) {
        StepTowards(n, s', x, bound);
        HeldFixed(n, s', x, m - 1);
        HeldFixed(n, s', x, m);
      }
    } else {
      FirstStepMonotone(n, state, x, bound);
    }
  }

  lemma FirstStepMonotone(n: nat, state: nat, x: nat, bound: nat)
    requires n >= 1 && bound * n < UINT16 && x <= bound && Between(n, state, 0, bound)
    requires Filtered(n, state, x).1 != x
    ensures var (s', out) := Filtered(n, state, x);
            var next := Filtered(n, s', x).1;
            Held(n, state, x, 1) == s' && if state <= Target(n, x) then out <= next <= x else x <= next <= out
  {
    var s' := Filtered(n, state, x).0;
    StepTowards(n, state, x, bound);
    StepTowards(n, s', x, bound);
    assert Held(n, state, x, 1) == Held(n, s', x, 0);
    if state <= s' {
      OutputMonotone(n, state, s', x, bound);
    } else {
      OutputMonotone(n, s', state, x, bound);
    }
  }

  // ---------- the bound is exact ----------

  lemma RoundedMultiple(n: nat, r: nat)
    requires n >= 1
    ensures Rounded(n, r * n) == r
  {
    RoundedOutput(n, r * n, r, r);
  }

  lemma ModCancel(a: nat, v: nat)
    ensures ((a % UINT16 - v) % UINT16 + v) % UINT16 == a % UINT16
  {
  }

  lemma LowDigits(n: nat, q: nat, value: nat)
    requires n >= 1 && q >= 1 && n * q == UINT16
    ensures value * n % UINT16 == value % q * n
  {
    Quotient(value, q);
    LowPart(n, q, value / q, value % q, value);
  }

  lemma LowPart(n: nat, q: nat, j: nat, r: nat, value: nat)
    requires n >= 1 && n * q == UINT16 && r < q && value == j * q + r
    ensures value * n % UINT16 == r * n
  {
    MulMono(r + 1, q, n);
    assert value * n == j * (n * q) + r * n;
    ModAway(r * n, j);
  }

  /** When value * 2^K leaves 16 bits, the first output is only what the kept bits spell. */
  lemma SeedCut(n: nat, q: nat, value: nat)
    requires n >= 1 && q >= 1 && n * q == UINT16
    ensures Filtered(n, Seeded(n, value), value).1 == value % q
  {
    LowDigits(n, q, value);
    QAtMost(n, q);
    SeededSum(n, value);
    OutputOfMultiple(n, Seeded(n, value), value, value % q);
  }

  lemma SeededSum(n: nat, value: nat)
    ensures (Seeded(n, value) + value) % UINT16 == value * n % UINT16
  {
    ModCancel(value * n, value);
  }

  lemma OutputOfMultiple(n: nat, state: nat, input: nat, r: nat)
    requires n >= 1 && (state + input) % UINT16 == r * n && r < UINT16
    ensures Filtered(n, state, input).1 == r
  {
    OutputOfSum(n, state, input, r * n);
    RoundedMultiple(n, r);
  }

  lemma OutputOfSum(n: nat, state: nat, input: nat, sum: nat)
    requires n >= 1 && sum == (state + input) % UINT16
    ensures Filtered(n, state, input).1 == Rounded(n, sum) % UINT16
  {
  }

  lemma QAtMost(n: nat, q: nat)
    requires n >= 1 && n * q == UINT16
    ensures q <= UINT16
  {
    MulMono(1, n, q);
  }

  /** A filter seeded with a value reproduces that value exactly when value * 2^K fits 16 bits. */
  lemma SteadyIff(k: nat, value: nat)
    requires k <= 16
    ensures Filtered(Pow2(k), Seeded(Pow2(k), value), value).1 == value <==> value * Pow2(k) < UINT16
  {
    var n := Pow2(k);
    var q := Pow2Divides(k);
    SeedCut(n, q, value);
    FitsIff(n, q, value);
  }

  /** With K = 2 a seed of 0x4000 starts the filter at 0. */
  lemma SeedLost()
    ensures Filtered(4, Seeded(4, 0x4000), 0x4000).1 == 0
  {
    SeedCut(4, 0x4000, 0x4000);
  }

  lemma FitsIff(n: nat, q: nat, value: nat)
    requires n >= 1 && q >= 1 && n * q == UINT16
    ensures value % q == value <==> value * n < UINT16
  {
    if value < q {
      MulMono(value + 1, q, n);
    } else {
      MulMono(q, value, n);
    }
  }

  lemma ModAway(a: nat, j: nat)
    requires a < UINT16
    ensures (j * UINT16 + a) % UINT16 == a
  {
  }

  lemma Pow2Divides(k: nat) returns (q: nat)
    requires k <= 16
    ensures q >= 1 && Pow2(k) * q == UINT16
  {
    q := Pow2(16 - k);
    Pow2Split(k, 16 - k);
    Pow2Of16();
  }

  lemma Pow2Of16()
    ensures Pow2(16) == UINT16
  {
    assert Pow2(4) == 4 * Pow2(2);
    assert Pow2(8) == 4 * Pow2(6) == 16 * Pow2(4);
    assert Pow2(12) == 4 * Pow2(10) == 16 * Pow2(8);
    assert Pow2(16) == 4 * Pow2(14) == 16 * Pow2(12);
  }

  lemma {:induction false} Pow2Split(a: nat, b: nat)
    ensures Pow2(a + b) == Pow2(a) * Pow2(b)
  {
    if a > 0 {
      Pow2Split(a - 1, b);
    }
  }
}
