/** The C++ word operators the streams apply: `<<` on a fixed-width word,
    which loses the bits shifted past the top, and bitwise `|` and `&` on
    unsigned words. */
module WordOps {
  import opened BitArith

  /** `x << n` on a word of `width` bits; C++ defines it only for n < width. */
  function Shl(x: nat, n: nat, width: nat): (r: nat)
    requires n < width
    ensures r < Pow2(width)
    ensures r == (x % Pow2(width - n)) * Pow2(n)
  {
    ShlTruncates(x, n, width);
    (x * Pow2(n)) % Pow2(width)
  }

  /** Shifting left by n keeps exactly the low width - n bits of x. */
  lemma ShlTruncates(x: nat, n: nat, width: nat)
    requires n <= width
    ensures (x * Pow2(n)) % Pow2(width) == (x % Pow2(width - n)) * Pow2(n)
  {
    var m := width - n;
    Euclid(x, Pow2(m));
    Pow2Add(m, n);
    ScaleDivMod(x, Rshift(x, m), x % Pow2(m), Pow2(m), Pow2(n));
  }

  /** Bitwise `x | y`. */
  function Or(x: nat, y: nat): (r: nat)
    ensures x <= r && y <= r && r <= x + y
  {
    if x == 0 then y
    else if y == 0 then x
    else 2 * Or(x / 2, y / 2) + (if x % 2 == 1 || y % 2 == 1 then 1 else 0)
  }

  /** Bitwise `x & y`. */
  function And(x: nat, y: nat): (r: nat)
    ensures r <= x && r <= y
  {
    if x == 0 || y == 0 then 0
    else 2 * And(x / 2, y / 2) + (if x % 2 == 1 && y % 2 == 1 then 1 else 0)
  }

  /** Masking with `bitmask(n)` keeps the low n bits: x mod 2^n. */
  lemma {:induction false} AndBitmask(x: nat, n: nat)
    ensures And(x, Bitmask(n)) == x % Pow2(n)
  {
    if n == 0 {
      assert Pow2(n) == 1;
    } else if x == 0 {
      ModSmall(0, Pow2(n));
    } else {
      var p := Pow2(n - 1);
      var m := Bitmask(n);
      assert m == 2 * Bitmask(n - 1) + 1;
      assert m != 0 && m % 2 == 1 && m / 2 == Bitmask(n - 1);
      AndBitmask(x / 2, n - 1);
      assert And(x, m) == 2 * ((x / 2) % p) + x % 2;
      Euclid(x / 2, p);
      HalveDivMod(x, x / 2, x % 2, Rshift(x / 2, n - 1), (x / 2) % p, p);
      assert Pow2(n) == 2 * p;
    }
  }

  /** OR-ing bits placed above a k-bit value is addition. */
  lemma {:induction false} OrDisjoint(x: nat, k: nat, y: nat, z: nat)
    requires x < Pow2(k) && z == y * Pow2(k)
    ensures Or(x, z) == x + z
  {
    if k > 0 && x != 0 && y != 0 {
      var z' := y * Pow2(k - 1);
      assert z == 2 * z';
      assert z' > 0;
      OrDisjoint(x / 2, k - 1, y, z');
    }
  }
}
