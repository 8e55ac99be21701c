/**
 * The integer helpers the hash table relies on: align_power2 from
 * shared/util.h (rounding a bucket count up to a power of two) and the
 * bitwise and that turns a digest into a bucket index.
 */
module Bits {

  ghost predicate IsPow2(n: nat) {
    if n <= 1 then n == 1 else n % 2 == 0 && IsPow2(n / 2)
  }

  /** align_power2: the smallest power of two that is at least n (1 for 0 and 1). */
  function AlignPower2(n: nat): (r: nat)
    ensures IsPow2(r) && n <= r
    ensures n <= 1 ==> r == 1
    ensures n > 1 ==> r < 2 * n - 1
  {
    if n <= 1 then 1 else 2 * AlignPower2((n + 1) / 2)
  }

  /** a & b on unsigned integers, one bit at a time from the least significant. */
  function BitAnd(a: nat, b: nat): (r: nat)
    ensures r <= a && r <= b
  {
    if a == 0 || b == 0 then 0
    else 2 * BitAnd(a / 2, b / 2) + (if a % 2 == 1 && b % 2 == 1 then 1 else 0)
  }

  /** Masking with n - 1 for a power of two n keeps the remainder modulo n. */
  lemma {:induction false} BitAndLowMask(a: nat, n: nat)
    requires IsPow2(n)
    ensures BitAnd(a, n - 1) == a % n
  {
    if n > 1 && a > 0 {
      var m := n / 2;
      var rest := 2 * ((a / 2) % m) + a % 2;
      assert BitAnd(a, n - 1) == rest by {
        BitAndLowMask(a / 2, m);
        assert (n - 1) / 2 == m - 1 && (n - 1) % 2 == 1;
      }
      assert a % n == rest by {
        var t := HalveSplit(a, n);
        DivModUnique(a, n, t, rest);
      }
    }
  }

  /** a = n * t + (2 * ((a / 2) mod (n / 2)) + a mod 2) for some t, when n is even. */
  lemma HalveSplit(a: nat, n: nat) returns (t: nat)
    requires n >= 2 && n % 2 == 0
    ensures a == n * t + (2 * ((a / 2) % (n / 2)) + a % 2)
  {
    var m := n / 2;
    t := (a / 2) / m;
    assert n * t == 2 * (m * t);
    assert a / 2 == m * t + (a / 2) % m;
    assert a == 2 * (a / 2) + a % 2;
  }

  /** Euclidean division leaves a unique remainder. */
  lemma DivModUnique(a: nat, n: nat, t: nat, rest: nat)
    requires 0 <= rest < n && a == n * t + rest
    ensures a % n == rest
  {
    var q := a / n;
    assert a == n * q + a % n;
    if q > t { MulAtLeast(n, q - t); assert false; }
    else if q < t { MulAtLeast(n, t - q); assert false; }
  }

  lemma {:induction false} MulAtLeast(n: nat, d: int)
    requires d >= 1
    ensures n * d >= n
  {
    if d > 1 { MulAtLeast(n, d - 1); }
  }
}
