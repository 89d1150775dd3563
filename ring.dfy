/** Index arithmetic of the traffic recorder's circular store: power-of-two
    capacities, the bit mask `mSizeMask` and the loop that picks the capacity. */
module Ring {

  /** 2^e, the value of `1ul << e` for the exponents the recorder uses. */
  function Pow2(e: nat): (r: nat)
    ensures r >= 1
  {
    if e == 0 then 1 else 2 * Pow2(e - 1)
  }

  /** Bitwise AND of two naturals, bit by bit from the least significant end:
      the C++ operator `&` on unsigned values. */
  function BitAnd(x: nat, y: nat): (r: nat)
    ensures r <= x && r <= y
  {
    if x == 0 || y == 0 then 0
    else 2 * BitAnd(x / 2, y / 2) + (if x % 2 == 1 && y % 2 == 1 then 1 else 0)
  }

  /** Reducing a value below 2n modulo n subtracts n at most once. */
  lemma ModOnce(x: nat, n: nat)
    requires 0 < n && x < 2 * n
    ensures x % n == if x < n then x else x - n
  {
  }

  lemma MulAtLeast(d: int, a: int)
    requires d > 0 && a >= 1
    ensures d * a >= d
  {
  }

  /** The remainder is determined by any decomposition x == d * t + v with 0 <= v < d. */
  lemma ModUnique(x: int, d: int, t: int, v: int)
    requires d > 0 && 0 <= v < d && x == d * t + v
    ensures x % d == v
  {
    var q, r := x / d, x % d;
    assert d * (t - q) == r - v;
    if t - q >= 1 { MulAtLeast(d, t - q); }
    else if q - t >= 1 { MulAtLeast(d, q - t); }
  }

  /** Dropping the lowest bit: x mod 2m is twice (x/2 mod m) plus the low bit of x. */
  lemma HalveMod(x: nat, m: nat)
    requires m > 0
    ensures x % (2 * m) == 2 * ((x / 2) % m) + x % 2
  {
    var q := x / 2;
    assert q == m * (q / m) + q % m;
    ModUnique(x, 2 * m, q / m, 2 * (q % m) + x % 2);
  }

  /** Masking with 2^e - 1 keeps the low e bits, so `x & mSizeMask` is `x % mSize`
      whenever mSize is a power of two. */
  lemma {:induction false} MaskIsMod(x: nat, e: nat)
    ensures BitAnd(x, Pow2(e) - 1) == x % Pow2(e)
  {
    if e == 0 {
      assert Pow2(e) == 1;
    } else if x == 0 {
      assert BitAnd(x, Pow2(e) - 1) == 0;
    } else {
      var m, mask := Pow2(e - 1), Pow2(e) - 1;
      assert mask == 2 * (m - 1) + 1;
      assert mask / 2 == m - 1 && mask % 2 == 1;
      var low := BitAnd(x / 2, m - 1);
      assert BitAnd(x, mask) == 2 * low + x % 2 by {
        assert x != 0 && mask != 0;
        assert (x % 2 == 1 && mask % 2 == 1) == (x % 2 == 1);
      }
      MaskIsMod(x / 2, e - 1);
      assert low == (x / 2) % m;
      HalveMod(x, m);
      assert Pow2(e) == 2 * m;
      assert BitAnd(x, Pow2(e) - 1) == x % (2 * m);
    }
  }

  /** e is the exponent of the smallest power of two that is at least size. */
  ghost predicate IsCeilExp(size: nat, e: nat)
  {
    size <= Pow2(e) && (e == 0 || Pow2(e - 1) < size)
  }

  lemma {:induction false} Pow2Monotone(a: nat, b: nat)
    requires a <= b
    ensures Pow2(a) <= Pow2(b)
  {
    if a < b { Pow2Monotone(a, b - 1); }
  }

  /** The smallest power of two at or above size is unique. */
  lemma CeilExpUnique(size: nat, e1: nat, e2: nat)
    requires IsCeilExp(size, e1) && IsCeilExp(size, e2)
    ensures e1 == e2
  {
    if e1 < e2 { Pow2Monotone(e1, e2 - 1); }
    if e2 < e1 { Pow2Monotone(e2, e1 - 1); }
  }

  /** The exponent loop of the sized constructor: the first exp below 32 with
      size <= 1 << exp, or 32 when there is none. */
  method SizeExponent(size: nat) returns (exp: nat)
    ensures exp <= 32
    ensures size <= Pow2(32) ==> IsCeilExp(size, exp)
    ensures size > Pow2(32) ==> exp == 32
  {
    exp := 0;
    while exp < 32
      invariant exp <= 32
      invariant exp > 0 ==> Pow2(exp - 1) < size
    {
      if size <= Pow2(exp) {
        Pow2Monotone(exp, 32);
        break;
      }
      exp := exp + 1;
    }
  }

  /** Capacities picked for a few requested sizes. */
  lemma CapacityExamples()
    ensures IsCeilExp(0, 0) && Pow2(0) == 1
    ensures IsCeilExp(5, 3) && Pow2(3) == 8
    ensures IsCeilExp(128, 7) && Pow2(7) == 128
    ensures IsCeilExp(129, 8) && Pow2(8) == 256
  {
  }
}
