/** The arithmetic of the load factor: thresholds, ring sizes, and when the ring grows. */
module LoadFactor {
  import opened Basics
  import opened Bits

  const MIN_LOAD_FACTOR: real := 0.15

  /** The nearest load factor that is allowed. */
  function Clamp(ml: real): (r: real)
    ensures 0.1 <= r <= 0.95 && (0.1 <= ml <= 0.95 ==> r == ml)
    ensures (ml < 0.1 ==> r == 0.1) && (ml > 0.95 ==> r == 0.95)
  {
    if ml < 0.1 then 0.1 else if ml > 0.95 then 0.95 else ml
  }

  function LoadOf(size: nat, n: nat): real {
    if n == 0 then 0.0 else size as real / n as real
  }

  /** The load factor is at least the one from which on long probes ask for growth. */
  predicate Loaded(size: nat, n: nat) {
    n > 0 && size as real >= MIN_LOAD_FACTOR * n as real
  }

  lemma LoadedExact(size: nat, n: nat)
    ensures Loaded(size, n) <==> LoadOf(size, n) >= MIN_LOAD_FACTOR
  {
    if n > 0 { QuotientAtLeast(size as real, n as real, MIN_LOAD_FACTOR); }
  }

  lemma QuotientAtLeast(a: real, d: real, m: real)
    requires d > 0.0
    ensures a / d >= m <==> a >= m * d
    ensures a / d <= m <==> a <= m * d
  {
    var q := a / d;
    assert q * d == a;
    ProductDiff(q, m, d);
    ProductSign(q - m, d);
  }

  function Ceiling(x: real): int {
    -((-x).Floor)
  }

  /** The buckets that `rehash` finds necessary for n values. */
  function Needed(n: nat, f: real): int
    requires f > 0.0
  {
    Ceiling(n as real / f)
  }

  lemma TimesBelow(n: nat, f: real)
    requires 0.0 <= f <= 0.95
    ensures 0.0 <= Times(n, f) <= n as real * 0.95
  {}

  /** The size from which on an insertion makes a ring of n buckets grow. */
  function ThresholdFor(n: nat, f: real): (t: nat)
    requires 0.0 <= f <= 0.95
    ensures t == Times(n, f).Floor
    ensures n > 0 ==> t < n
  {
    TimesIsProduct(n, f);
    TimesBelow(n, f);
    (n as real * f).Floor
  }

  lemma ProductSign(a: real, b: real)
    requires b > 0.0
    ensures a > 0.0 ==> a * b > 0.0
    ensures a == 0.0 ==> a * b == 0.0
    ensures a < 0.0 ==> a * b < 0.0
  {}

  lemma ProductDiff(a: real, c: real, b: real)
    ensures (a - c) * b == a * b - c * b
  {}

  /** Enough buckets are those at which the values do not exceed the load factor. */
  lemma NeededExact(n: nat, f: real, count: nat)
    requires 0.0 < f
    ensures Needed(n, f) <= count <==> n as real <= Times(count, f)
  {
    TimesIsProduct(count, f);
    QuotientAtLeast(n as real, f, count as real);
  }

  lemma TimesMonotone(m: nat, n: nat, f: real)
    requires m <= n && f >= 0.0
    ensures Times(m, f) <= Times(n, f)
  {}

  lemma TimesDouble(n: nat, f: real)
    ensures Times(2 * n, f) == 2.0 * Times(n, f)
  {
    TimesIsProduct(n, f);
    TimesIsProduct(2 * n, f);
  }

  /** Enough buckets for n values leave a bucket free and a threshold that n does not pass. */
  lemma NeededFits(n: nat, f: real, buckets: nat)
    requires 0.0 < f <= 0.95 && Needed(n, f) <= buckets
    ensures n <= ThresholdFor(buckets, f) && Needed(n, f) >= n && (n > 0 ==> n < buckets && n < Needed(n, f))
  {
    NeededExact(n, f, buckets);
    NeededAbove(n, f);
  }

  lemma NeededAbove(n: nat, f: real)
    requires 0.0 < f <= 0.95
    ensures Needed(n, f) >= n && (n > 0 ==> Needed(n, f) > n)
  {
    var q := n as real / f;
    assert q * f == n as real;
    ProductSign(q, f);
    ProductSign(q, 1.0 - f);
    assert q == q * f + q * (1.0 - f);
  }

  // ----- growing, and the assertion that a rehash starts with

  /** The ring size for a requested count. */
  ghost predicate Sized(n: nat, count: nat) {
    if count == 0 then n == 0 else IsLeastPow2(n, count)
  }

  function Grown(n: nat): nat {
    if n == 0 then 1 else n * 2
  }

  lemma GrownPow2(n: nat, r: nat)
    requires n == 0 || IsPow2(n)
    requires IsLeastPow2(r, Grown(n))
    ensures r == Grown(n)
  {
    if n == 0 { assert 1 == Pow2(0); } else { Pow2Double(n); }
    assert IsPow2(Grown(n));
  }

  /** The debug assertion at the beginning of `rehash_impl`, when a ring of n buckets with `size` values grows. */
  predicate GrowthAsserted(size: nat, n: nat, f: real)
    requires f > 0.0
  {
    Needed(size, f) <= Grown(n)
  }

  /** One insertion of a new key: the ring grows exactly when an earlier displacement asked for it or the size has
      reached the threshold. */
  ghost predicate Inserts(size: nat, n: nat, f: real, asked: bool, n': nat)
    requires 0.1 <= f <= 0.95
  {
    n' == if asked || size >= ThresholdFor(n, f) then Grown(n) else n
  }

  /** The ring sizes during insertions of new keys into a table of `size` values, and when growth was asked for. */
  ghost predicate Insertions(size: nat, f: real, ns: seq<nat>, asked: seq<bool>)
    requires 0.1 <= f <= 0.95
  {
    |ns| == |asked| + 1 && forall i: nat | i < |asked| :: Inserts(size + i, ns[i], f, asked[i], ns[i + 1])
  }

  /** The assertion holds whenever the ring grows. */
  ghost predicate AlwaysAsserted(size: nat, f: real, ns: seq<nat>)
    requires 0.1 <= f <= 0.95
  {
    forall i: nat | i + 1 < |ns| && ns[i + 1] == Grown(ns[i]) :: GrowthAsserted(size + i, ns[i], f)
  }

  /** The values fit the grown ring at the load factor, and so will the first value when there is none. */
  ghost predicate Roomy(size: nat, n: nat, f: real) {
    size as real <= Times(Grown(n), f) && (size > 0 || 1.0 <= 2.0 * Times(Grown(n), f))
  }

  lemma GrownTwice(n: nat, f: real)
    requires f >= 0.0
    ensures Times(Grown(Grown(n)), f) == 2.0 * Times(Grown(n), f) && Times(n, f) <= Times(Grown(n), f)
  {
    TimesDouble(Grown(n), f);
    TimesMonotone(n, Grown(n), f);
  }

  lemma RoomyInserts(size: nat, n: nat, f: real, asked: bool, n': nat)
    requires 0.1 <= f <= 0.95 && Roomy(size, n, f) && Inserts(size, n, f, asked, n')
    ensures GrowthAsserted(size, n, f) && Roomy(size + 1, n', f)
  {
    NeededExact(size, f, Grown(n));
    GrownTwice(n, f);
  }

  lemma {:induction false} RoomyStays(size: nat, f: real, ns: seq<nat>, asked: seq<bool>, i: nat)
    requires 0.1 <= f <= 0.95 && Insertions(size, f, ns, asked) && Roomy(size, ns[0], f) && i < |ns|
    ensures Roomy(size + i, ns[i], f) && (i < |asked| ==> GrowthAsserted(size + i, ns[i], f))
  {
    if i > 0 {
      RoomyStays(size, f, ns, asked, i - 1);
      RoomyInserts(size + (i - 1), ns[i - 1], f, asked[i - 1], ns[i]);
    }
    if i < |asked| { RoomyInserts(size + i, ns[i], f, asked[i], ns[i + 1]); }
  }

  /** Without room, the next insertion makes the ring grow and violates the assertion; or the table is empty, and the
      next two insertions make it grow and the second one violates the assertion. */
  lemma CrowdedFails(size: nat, n: nat, f: real)
    requires 0.1 <= f <= 0.95 && !Roomy(size, n, f)
    ensures size >= ThresholdFor(n, f)
    ensures GrowthAsserted(size, n, f) ==>
      size == 0 && 1 >= ThresholdFor(Grown(n), f) && !GrowthAsserted(1, Grown(n), f)
  {
    NeededExact(size, f, Grown(n));
    NeededExact(1, f, Grown(Grown(n)));
    GrownTwice(n, f);
  }

  /** In every run of two or more insertions of new keys, whatever growth displacements ask for, the assertion holds at
      all growths if and only if the table had room. */
  lemma GrowthAssertionExact(size: nat, f: real, ns: seq<nat>, asked: seq<bool>)
    requires 0.1 <= f <= 0.95 && Insertions(size, f, ns, asked) && |asked| >= 2
    ensures AlwaysAsserted(size, f, ns) <==> Roomy(size, ns[0], f)
  {
    if Roomy(size, ns[0], f) {
      forall i: nat | i + 1 < |ns| ensures GrowthAsserted(size + i, ns[i], f) {
        RoomyStays(size, f, ns, asked, i);
      }
    } else {
      CrowdedFails(size, ns[0], f);
      assert Inserts(size + 0, ns[0], f, asked[0], ns[0 + 1]) && Inserts(size + 1, ns[1], f, asked[1], ns[1 + 1]);
      if GrowthAsserted(size, ns[0], f) {
        assert !GrowthAsserted(size + 1, ns[1], f);
      } else {
        assert !GrowthAsserted(size + 0, ns[0], f);
      }
    }
  }

  /** The assertion does fail when the size alone makes the ring grow: at the second insertion into a table made with
      one bucket and the least load factor, and at the next insertion when 12 values in 16 buckets, full at the default
      load factor, are given the least one. */
  lemma GrowthAssertionFails()
    ensures Insertions(0, 0.1, [1, 2, 4], [false, false]) && !GrowthAsserted(1, 2, 0.1)
    ensures ThresholdFor(16, 0.75) == 12 && Inserts(12, 16, 0.1, false, 32) && !GrowthAsserted(12, 16, 0.1)
  {
    TimesIsProduct(1, 0.1);
    TimesIsProduct(2, 0.1);
    TimesIsProduct(16, 0.75);
    TimesIsProduct(16, 0.1);
  }
}
