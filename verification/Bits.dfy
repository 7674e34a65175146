/** Unsigned bit arithmetic over `nat`, and the two places where the hash table rests on it:
    masking a hash with `bucket_count - 1`, and rounding a bucket count up by bit smearing. */
module Bits {

  const TWO_32: nat := 0x1_0000_0000
  const TWO_63: nat := 0x8000_0000_0000_0000
  const TWO_64: nat := 0x1_0000_0000_0000_0000

  function Pow2(k: nat): (p: nat)
    ensures p > 0
  {
    if k == 0 then 1 else 2 * Pow2(k - 1)
  }

  function Bit(x: nat, j: nat): (b: nat)
    ensures b <= 1
  {
    if j == 0 then x % 2 else Bit(x / 2, j - 1)
  }

  function And(a: nat, b: nat): nat {
    if a == 0 || b == 0 then 0
    else 2 * And(a / 2, b / 2) + (if a % 2 == 1 && b % 2 == 1 then 1 else 0)
  }

  function Or(a: nat, b: nat): nat
    decreases a + b
  {
    if a == 0 && b == 0 then 0
    else 2 * Or(a / 2, b / 2) + (if a % 2 == 1 || b % 2 == 1 then 1 else 0)
  }

  function Shr(a: nat, i: nat): nat {
    if i == 0 then a else Shr(a / 2, i - 1)
  }

  ghost predicate IsPow2(n: nat) {
    exists k: nat :: n == Pow2(k)
  }

  // ----- powers of two

  lemma Pow2Values()
    ensures Pow2(32) == TWO_32 && Pow2(63) == TWO_63 && Pow2(64) == TWO_64
  {
    assert Pow2(8) == 256;
    assert Pow2(16) == 0x1_0000 by { Pow2Add(8, 8); }
    assert Pow2(32) == TWO_32 by { Pow2Add(16, 16); }
    assert Pow2(64) == TWO_64 by { Pow2Add(32, 32); }
    assert Pow2(63 + 1) == 2 * Pow2(63);
  }

  lemma Pow2Add(a: nat, b: nat)
    ensures Pow2(a + b) == Pow2(a) * Pow2(b)
  {
    if a > 0 {
      Pow2Add(a - 1, b);
      assert Pow2(a - 1 + b) == Pow2(a - 1) * Pow2(b);
      TwiceProduct(Pow2(a - 1), Pow2(b));
    }
  }

  lemma TwiceProduct(a: nat, b: nat)
    ensures 2 * (a * b) == (2 * a) * b
  {}

  lemma Pow2Monotone(a: nat, b: nat)
    requires a < b
    ensures 2 * Pow2(a) <= Pow2(b)
  {
    if a + 1 < b { Pow2Monotone(a, b - 1); }
  }

  lemma Pow2Double(n: nat)
    requires IsPow2(n)
    ensures IsPow2(2 * n)
  {
    var k: nat :| n == Pow2(k);
    assert 2 * n == Pow2(k + 1);
  }

  // ----- masking

  lemma MulAtLeast(d: int, m: int)
    requires m >= 0
    ensures d >= 1 ==> d * m >= m
    ensures d <= -1 ==> d * m <= -m
  {
    if d >= 1 {
      assert d * m == (d - 1) * m + m && (d - 1) * m >= 0;
    } else if d <= -1 {
      assert d * m == -((-d - 1) * m) - m && (-d - 1) * m >= 0;
    }
  }

  lemma DivModUnique(h: int, m: int, q: int, r: int)
    requires 0 <= r < m && h == q * m + r
    ensures h / m == q && h % m == r
  {
    var dq := h / m - q;
    assert dq * m == (h / m) * m - q * m;
    MulAtLeast(dq, m);
  }

  lemma HalfMod(h: nat, p: nat)
    requires p > 0
    ensures h % (2 * p) == 2 * (h / 2 % p) + h % 2
  {
    var q, r := h / 2 / p, h / 2 % p;
    assert h / 2 == q * p + r;
    assert q * (2 * p) == 2 * (q * p);
    DivModUnique(h, 2 * p, q, 2 * r + h % 2);
  }

  lemma ModMod(h: nat, n: nat, m: nat)
    requires n > 0 && m > 0
    ensures n * m > 0 && h % (n * m) % m == h % m
  {
    MulAtLeast(n, m);
    var q, r := h / (n * m), h % (n * m);
    assert q * (n * m) == (q * n) * m;
    assert r == r / m * m + r % m;
    assert (q * n + r / m) * m == (q * n) * m + r / m * m;
    DivModUnique(h, m, q * n + r / m, r % m);
  }

  lemma ModSmall(h: nat, m: nat)
    requires h < m
    ensures h % m == h
  {}

  /** The mask `bucket_count - 1` of a power-of-two bucket count reduces modulo the bucket count. */
  lemma {:induction false} AndMask(h: nat, k: nat)
    ensures And(h, Pow2(k) - 1) == h % Pow2(k)
  {
    if h == 0 {
      ModSmall(0, Pow2(k));
    } else if k > 0 {
      AndMask(h / 2, k - 1);
      HalfMod(h, Pow2(k - 1));
      assert (Pow2(k) - 1) / 2 == Pow2(k - 1) - 1;
    }
  }

  /** Masking the hash truncated to 32 bits is masking the full hash, for every hash, exactly up to 2^32 buckets. */
  lemma MaskTruncated(k: nat)
    ensures (forall h: nat :: And(h % TWO_32, Pow2(k) - 1) == And(h, Pow2(k) - 1)) <==> k <= 32
  {
    Pow2Values();
    if k <= 32 {
      forall h: nat ensures And(h % TWO_32, Pow2(k) - 1) == And(h, Pow2(k) - 1) {
        MaskTruncatedHash(h, k);
      }
    } else {
      Pow2Monotone(32, k);
      AndMask(0, k);
      AndMask(TWO_32, k);
      ModSmall(TWO_32, Pow2(k));
      assert And(TWO_32 % TWO_32, Pow2(k) - 1) != And(TWO_32, Pow2(k) - 1);
    }
  }

  lemma MaskTruncatedHash(h: nat, k: nat)
    requires k <= 32
    ensures And(h % TWO_32, Pow2(k) - 1) == And(h, Pow2(k) - 1)
  {
    AndMask(h % TWO_32, k);
    AndMask(h, k);
    Pow2Values();
    Pow2Add(32 - k, k);
    ModMod(h, Pow2(32 - k), Pow2(k));
  }

  // ----- the power-of-two test

  lemma AndSelf(a: nat)
    ensures And(a, a) == a
  {}

  predicate IsPowerOfTwo(value: nat) {
    value != 0 && And(value, value - 1) == 0
  }

  /** The bit test `value & (value - 1) == 0` recognises exactly the powers of two. */
  lemma {:induction false} PowerOfTwoTest(value: nat)
    ensures IsPowerOfTwo(value) <==> IsPow2(value)
  {
    if value == 0 {
    } else if value == 1 {
      assert 1 == Pow2(0);
    } else if value % 2 == 1 {
      AndSelf(value / 2);
      assert (value - 1) / 2 == value / 2;
      forall k: nat ensures value != Pow2(k) {}
    } else {
      PowerOfTwoTest(value / 2);
      assert (value - 1) / 2 == value / 2 - 1;
      if IsPow2(value / 2) {
        Pow2Double(value / 2);
      }
      if IsPow2(value) {
        var k: nat :| value == Pow2(k);
        assert value / 2 == Pow2(k - 1);
      }
    }
  }

  // ----- bit smearing

  lemma OrHalf(a: nat, b: nat)
    ensures Or(a, b) / 2 == Or(a / 2, b / 2)
    ensures Or(a, b) % 2 == if a % 2 == 1 || b % 2 == 1 then 1 else 0
  {}

  lemma BitOr(a: nat, b: nat, j: nat)
    ensures Bit(Or(a, b), j) == (if Bit(a, j) == 1 || Bit(b, j) == 1 then 1 else 0)
    decreases j
  {
    OrHalf(a, b);
    if j > 0 { BitOr(a / 2, b / 2, j - 1); }
  }

  lemma BitShr(x: nat, i: nat, j: nat)
    ensures Bit(Shr(x, i), j) == Bit(x, i + j)
  {}

  lemma ShrBound(x: nat, i: nat)
    ensures Shr(x, i) <= x
  {}

  lemma OrBound(a: nat, b: nat, n: nat)
    requires a < Pow2(n) && b < Pow2(n)
    ensures Or(a, b) < Pow2(n)
    decreases n
  {
    if a != 0 || b != 0 {
      OrBound(a / 2, b / 2, n - 1);
    }
  }

  lemma TopBit(x: nat, k: nat)
    requires Pow2(k) <= x < Pow2(k + 1)
    ensures Bit(x, k) == 1
  {
    if k > 0 { TopBit(x / 2, k - 1); }
  }

  lemma AllOnes(x: nat, n: nat)
    requires x < Pow2(n)
    requires forall j: nat | j < n :: Bit(x, j) == 1
    ensures x == Pow2(n) - 1
  {
    if n > 0 {
      assert Bit(x, 0) == 1;
      forall j: nat | j < n - 1 ensures Bit(x / 2, j) == 1 { assert Bit(x, j + 1) == 1; }
      AllOnes(x / 2, n - 1);
    }
  }

  ghost function Log2(x: nat): (k: nat)
    requires x > 0
    ensures Pow2(k) <= x < Pow2(k + 1)
  {
    if x == 1 then 0 else Log2(x / 2) + 1
  }

  ghost predicate IsLeastPow2(r: nat, value: nat) {
    IsPow2(r) && value <= r && forall p: nat | IsPow2(p) && value <= p :: r <= p
  }

  ghost predicate OnesBelow(x: nat, k: nat, i: nat) {
    forall j: nat | j <= k < i + j :: Bit(x, j) == 1
  }

  lemma SmearStep(x: nat, k: nat, i: nat)
    requires x < Pow2(k + 1) && OnesBelow(x, k, i)
    ensures Or(x, Shr(x, i)) < Pow2(k + 1) && OnesBelow(Or(x, Shr(x, i)), k, 2 * i)
  {
    ShrBound(x, i);
    OrBound(x, Shr(x, i), k + 1);
    forall j: nat | j <= k < 2 * i + j ensures Bit(Or(x, Shr(x, i)), j) == 1 {
      BitOr(x, Shr(x, i), j);
      BitShr(x, i, j);
    }
  }

  /** What the wrapped sum `x + 1` is once every bit from `k` down is set. */
  lemma SmearRange(value: nat, k: nat)
    requires 2 <= value < TWO_64 && Pow2(k) <= value - 1 < Pow2(k + 1)
    ensures k <= 63 && (value <= TWO_63 <==> k < 63)
    ensures Pow2(k + 1) % TWO_64 == if k < 63 then Pow2(k + 1) else 0
  {
    Pow2Values();
    if k < 63 { Pow2Monotone(k, 63); Pow2Monotone(k + 1, 64); }
    if k > 63 { Pow2Monotone(63, k); }
    if k < 62 { Pow2Monotone(k + 1, 63); }
  }

  lemma SmearDone(value: nat, x: nat, k: nat)
    requires 2 <= value < TWO_64 && Pow2(k) <= value - 1 < Pow2(k + 1)
    requires x < Pow2(k + 1) && OnesBelow(x, k, 64)
    ensures var r := (x + 1) % TWO_64;
            if value <= TWO_63 then IsLeastPow2(r, value) else r == 0
  {
    SmearRange(value, k);
    assert forall j: nat | j < k + 1 :: Bit(x, j) == 1;
    AllOnes(x, k + 1);
    NextPow2(value, k);
  }

  /** The 64-bit rounding loop: the least power of two not below the argument up to 2^63, and 0 (the
      wrapped sum) beyond. */
  method RoundUpToPowerOfTwo(value: nat) returns (r: nat)
    requires value < TWO_64
    ensures if value <= TWO_63 then IsLeastPow2(r, value) else r == 0
  {
    PowerOfTwoTest(value);
    assert Pow2(0) == 1;
    if IsPowerOfTwo(value) {
      AtMostTwo63(value);
      return value;
    }
    if value == 0 {
      return 1;
    }
    var x: nat := value - 1;
    ghost var k := Log2(x);
    TopBit(x, k);
    var i: nat := 1;
    while i < 64
      invariant i in {1, 2, 4, 8, 16, 32, 64}
      invariant x < Pow2(k + 1) && OnesBelow(x, k, i)
      decreases 64 - i
    {
      SmearStep(x, k, i);
      x := Or(x, Shr(x, i));
      i := i * 2;
    }
    SmearDone(value, x, k);
    r := (x + 1) % TWO_64;
  }

  lemma AtMostTwo63(value: nat)
    requires IsPow2(value) && value < TWO_64
    ensures value <= TWO_63
  {
    Pow2Values();
    var k: nat :| value == Pow2(k);
    if k < 63 { Pow2Monotone(k, 63); }
    if 64 < k { Pow2Monotone(64, k); }
  }

  lemma NextPow2(value: nat, k: nat)
    requires value >= 2 && Pow2(k) <= value - 1 < Pow2(k + 1)
    ensures IsLeastPow2(Pow2(k + 1), value)
  {
    forall p: nat | IsPow2(p) && value <= p ensures Pow2(k + 1) <= p {
      var n: nat :| p == Pow2(n);
      if n < k { Pow2Monotone(n, k); } else if k + 1 < n { Pow2Monotone(k + 1, n); }
    }
  }
}
