/** Arithmetic on unsigned words represented as naturals: powers of two and
    the division facts that the shift and mask reasoning of the bit streams
    rests on. */
module BitArith {

  /** 2^n, the number of values of an n-bit word. */
  function Pow2(n: nat): (r: nat)
    ensures r >= 1
  {
    if n == 0 then 1 else 2 * Pow2(n - 1)
  }

  /** `bitmask(n)`: a word whose lowest n bits are set (all ones when n is
      the word width). */
  function Bitmask(n: nat): (r: nat)
    ensures r < Pow2(n)
  {
    Pow2(n) - 1
  }

  /** `rshift(x, n)`: x shifted right by n bits, with a shift by the whole
      word width giving 0 rather than being undefined. */
  function Rshift(x: nat, n: nat): (r: nat)
    ensures r <= x
    ensures x < Pow2(n) ==> r == 0
  {
    DivBasics(x, Pow2(n));
    x / Pow2(n)
  }

  lemma DivBasics(x: nat, d: nat)
    requires d > 0
    ensures 0 <= x / d <= x && (x < d ==> x / d == 0)
  {
    var q := x / d;
    assert x == x % d + q * d;
    if q < 0 {
      MulLe(q, -1, d);
    } else {
      MulLe(1, d, q);
    }
    if x < d {
      ModSmall(x, d);
    }
  }

  /** Scaling a division equation by b scales divisor and remainder. */
  lemma ScaleDivMod(x: int, q: int, r: int, a: int, b: int)
    requires a > 0 && b > 0 && 0 <= r < a && x == r + q * a
    ensures (x * b) / (a * b) == q && (x * b) % (a * b) == r * b
  {
    assert x * b == q * (a * b) + r * b by {
      assert x * b == r * b + (q * a) * b;
      assert (q * a) * b == q * (a * b);
    }
    MulLe(r, a - 1, b);
    assert (a - 1) * b == a * b - b;
    DivModUnique(x * b, a * b, q, r * b);
  }

  /** Dividing by 2p goes through dividing by 2 then by p. */
  lemma HalveDivMod(x: int, h: int, b: int, q: int, r: int, p: int)
    requires p > 0 && 0 <= b < 2 && 0 <= r < p
    requires x == 2 * h + b && h == r + q * p
    ensures x % (2 * p) == 2 * r + b
  {
    assert x == q * (2 * p) + (2 * r + b) by {
      assert 2 * (q * p) == q * (2 * p);
    }
    DivModUnique(x, 2 * p, q, 2 * r + b);
  }

  /** Reducing modulo 2^n and then 2^k, for k <= n, is reducing modulo 2^k. */
  lemma ModMod(x: nat, k: nat, n: nat)
    requires k <= n
    ensures (x % Pow2(n)) % Pow2(k) == x % Pow2(k)
  {
    Pow2Add(k, n - k);
    ModOfMod(x, Pow2(k), Pow2(n - k));
  }

  lemma ModOfMod(x: int, a: int, b: int)
    requires a > 0 && b > 0
    ensures (x % (a * b)) % a == x % a
  {
    var q, r := x / (a * b), x % (a * b);
    var q', r' := r / a, r % a;
    assert x == (q * b + q') * a + r' by {
      assert x == q * (a * b) + r;
      assert r == q' * a + r';
      assert q * (a * b) == (q * b) * a;
    }
    DivModUnique(x, a, q * b + q', r');
  }

  lemma MulLe(a: int, b: int, c: int)
    requires a <= b && c >= 0
    ensures a * c <= b * c
  {
    assert b * c == a * c + (b - a) * c;
  }

  lemma {:induction false} Pow2Add(a: nat, b: nat)
    ensures Pow2(a + b) == Pow2(a) * Pow2(b)
  {
    if a > 0 {
      Pow2Add(a - 1, b);
      assert Pow2(a + b) == 2 * Pow2(a - 1 + b);
      assert 2 * (Pow2(a - 1) * Pow2(b)) == (2 * Pow2(a - 1)) * Pow2(b);
    }
  }

  lemma {:induction false} Pow2Mono(a: nat, b: nat)
    requires a <= b
    ensures Pow2(a) <= Pow2(b)
  {
    if a < b {
      Pow2Mono(a, b - 1);
    }
  }

  /** Quotient and remainder are determined by the division equation. */
  lemma DivModUnique(x: int, d: int, q: int, r: int)
    requires d > 0 && 0 <= r < d && x == q * d + r
    ensures x / d == q && x % d == r
  {
    var q', r' := x / d, x % d;
    assert (q - q') * d == r' - r;
    if q' < q {
      MulLe(1, q - q', d);
    } else if q < q' {
      MulLe(1, q' - q, d);
    }
  }

  lemma Euclid(x: nat, d: nat)
    requires d > 0
    ensures x == x % d + (x / d) * d && x % d < d
  {
  }

  lemma ModSmall(x: nat, d: nat)
    requires x < d
    ensures x % d == x && x / d == 0
  {
    DivModUnique(x, d, 0, x);
  }

  /** Dropping the low a bits of an (a+b)-bit value leaves a b-bit value. */
  lemma DivBound(x: nat, a: nat, b: nat)
    requires x < Pow2(a + b)
    ensures x / Pow2(a) < Pow2(b)
  {
    Pow2Add(a, b);
    var q := x / Pow2(a);
    assert q * Pow2(a) <= x;
    if q >= Pow2(b) {
      MulLe(Pow2(b), q, Pow2(a));
    }
  }

  /** A k-bit value below a j-bit value shifted by k is a (k+j)-bit value. */
  lemma CombineBound(x: nat, k: nat, y: nat, j: nat)
    requires x < Pow2(k) && y < Pow2(j)
    ensures x + y * Pow2(k) < Pow2(k + j)
  {
    Pow2Add(k, j);
    MulLe(y, Pow2(j) - 1, Pow2(k));
    assert (Pow2(j) - 1) * Pow2(k) == Pow2(j) * Pow2(k) - Pow2(k);
  }


}
