/**
 * What the integer, memory, container and bit-vector models share: the byte
 * type, an optional value, `SIZE_MAX`, and small facts about powers of two
 * and Euclidean division.
 */
module Arith {

  /** An unsigned 8-bit value: the unit of every byte buffer in the model. */
  newtype byte = b: int | 0 <= b < 256

  /** A value that may be absent: a lookup that finds nothing, a check that terminates. */
  datatype Option<T> = None | Some(value: T)

  /** `SIZE_MAX` on a 64-bit host. */
  const SizeMax: nat := 0xFFFF_FFFF_FFFF_FFFF

  function Pow2(n: nat): (r: nat)
    ensures r >= 1
  {
    if n == 0 then 1 else 2 * Pow2(n - 1)
  }

  lemma {:induction false} Pow2Add(a: nat, b: nat)
    ensures Pow2(a + b) == Pow2(a) * Pow2(b)
  {
    if a > 0 {
      Pow2Add(a - 1, b);
    }
  }

  lemma {:induction false} Pow2Monotone(a: nat, b: nat)
    requires a <= b
    ensures Pow2(a) <= Pow2(b)
  {
    if a < b {
      Pow2Monotone(a, b - 1);
    }
  }

  lemma MulAtLeast(a: int, b: int)
    requires a >= 1 && b >= 0
    ensures a * b >= b
  {
  }

  lemma MulMonotone(a: int, b: int, c: int)
    requires a <= b && c >= 0
    ensures a * c <= b * c
  {
  }

  /** Euclidean division is determined by any decomposition with 0 <= r < d. */
  lemma DivModUnique(x: int, d: int, q: int, r: int)
    requires d > 0 && 0 <= r < d && x == q * d + r
    ensures x / d == q && x % d == r
  {
    var q', r' := x / d, x % d;
    assert x == q' * d + r';
    if q' > q {
      MulAtLeast(q' - q, d);
    } else if q' < q {
      MulAtLeast(q - q', d);
    }
  }

  /** Adding a multiple of the modulus changes neither remainder. */
  lemma ModShift(x: int, k: int, m: int)
    requires m > 0
    ensures (x + k * m) % m == x % m
    ensures (x + k * m) / m == x / m + k
  {
    var q, r := x / m, x % m;
    assert x + k * m == (q + k) * m + r;
    DivModUnique(x + k * m, m, q + k, r);
  }

  lemma ModAdd(a: int, b: int, m: int)
    requires m > 0
    ensures (a % m + b % m) % m == (a + b) % m
  {
    ModShift(a % m + b % m, a / m + b / m, m);
    assert a % m + b % m + (a / m + b / m) * m == a + b;
  }

  lemma ModSub(a: int, b: int, m: int)
    requires m > 0
    ensures (a % m - b % m) % m == (a - b) % m
  {
    ModShift(a % m - b % m, a / m - b / m, m);
    assert a % m - b % m + (a / m - b / m) * m == a - b;
  }

  lemma ModMul(a: int, b: int, m: int)
    requires m > 0
    ensures ((a % m) * (b % m)) % m == (a * b) % m
  {
    var qa, ra, qb, rb := a / m, a % m, b / m, b % m;
    ProductExpand(a, qa, ra, b, qb, rb, m);
    ModShift(ra * rb, qa * qb * m + qa * rb + ra * qb, m);
  }

  /** The product of `x*m + a` and `y*m + b` is `a*b` plus a multiple of `m`. */
  lemma ProductExpand(p: int, x: int, a: int, q: int, y: int, b: int, m: int)
    requires p == x * m + a && q == y * m + b
    ensures p * q == a * b + (x * y * m + x * b + a * y) * m
  {
    calc {
      p * q;
    ==
      (x * m + a) * (y * m + b);
    ==
      (x * m) * (y * m) + (x * m) * b + a * (y * m) + a * b;
    ==
      a * b + (x * y * m) * m + (x * b) * m + (a * y) * m;
    ==
      a * b + (x * y * m + x * b + a * y) * m;
    }
  }

  lemma ModMulRight(a: int, p: int, m: int)
    requires m > 0
    ensures ((a % m) * p) % m == (a * p) % m
  {
    var qa, ra := a / m, a % m;
    assert a * p == ra * p + (qa * p) * m by {
      assert a == qa * m + ra;
    }
    ModShift(ra * p, qa * p, m);
  }

  lemma DivLe(x: nat, d: int)
    requires d > 0
    ensures x / d <= x
  {
    var q := x / d;
    assert x == q * d + x % d;
    if q > x {
      MulAtLeast(d, q);
    }
  }

  lemma DivLt(x: nat, d: int, bound: int)
    requires d > 0 && x < bound * d
    ensures x / d < bound
  {
    var q := x / d;
    assert x == q * d + x % d;
    if q >= bound {
      MulMonotone(bound, q, d);
    }
  }

  /** One halving step of a division by a power of two. */
  lemma DivPow2Step(u: nat, i: nat)
    ensures u / Pow2(i + 1) == (u / 2) / Pow2(i)
    ensures u % Pow2(i + 1) == 2 * ((u / 2) % Pow2(i)) + u % 2
  {
    var p := Pow2(i);
    var q := (u / 2) / p;
    var r := (u / 2) % p;
    assert u / 2 == q * p + r;
    assert u == q * (2 * p) + (2 * r + u % 2);
    DivModUnique(u, 2 * p, q, 2 * r + u % 2);
  }

  /** Dividing successively by 2^a and 2^b is dividing by 2^(a+b). */
  lemma {:induction false} DivPow2Add(u: nat, a: nat, b: nat)
    ensures u / Pow2(a) / Pow2(b) == u / Pow2(a + b)
  {
    if a > 0 {
      DivPow2Add(u / 2, a - 1, b);
      DivPow2Step(u, a - 1);
      DivPow2Step(u, a + b - 1);
    }
  }

  /** The low bits of a product by 2^k are zero. */
  lemma MulPow2Split(hi: nat, lo: nat, k: nat)
    requires lo < Pow2(k)
    ensures (hi * Pow2(k) + lo) / Pow2(k) == hi
    ensures (hi * Pow2(k) + lo) % Pow2(k) == lo
  {
    DivModUnique(hi * Pow2(k) + lo, Pow2(k), hi, lo);
  }
}
