/** Bit histories: the sequence of bits a word or a run of words carries,
    lowest-order bit first, which is the order in which the streams write
    and read them. */
module BitSeqs {
  import opened BitArith

  /** The low n bits of x, bit 0 first. */
  function Bits(x: nat, n: nat): (s: seq<bool>)
    ensures |s| == n
  {
    if n == 0 then [] else [x % 2 == 1] + Bits(x / 2, n - 1)
  }

  /** n one bits. */
  function Ones(n: nat): seq<bool>
  {
    seq(n, _ => true)
  }

  /** n zero bits. */
  function Zeros(n: nat): seq<bool>
  {
    seq(n, _ => false)
  }

  /** The bits of a run of w-bit words, first word first. */
  function Flatten(ws: seq<nat>, w: nat): seq<bool>
  {
    if |ws| == 0 then [] else Bits(ws[0], w) + Flatten(ws[1..], w)
  }

  /** Placing y above a k-bit value x puts y's bits right after x's. */
  lemma {:induction false} BitsConcat(z: nat, x: nat, k: nat, y: nat, j: nat)
    requires x < Pow2(k) && z == x + y * Pow2(k)
    ensures Bits(z, k + j) == Bits(x, k) + Bits(y, j)
  {
    if k == 0 {
      assert x == 0 && y * Pow2(k) == y;
    } else {
      var q := x / 2 + y * Pow2(k - 1);
      assert y * Pow2(k) == 2 * (y * Pow2(k - 1));
      DivModUnique(z, 2, q, x % 2);
      assert x / 2 < Pow2(k - 1);
      BitsConcat(q, x / 2, k - 1, y, j);
      assert Bits(z, k + j) == [x % 2 == 1] + Bits(q, k - 1 + j);
    }
  }

  /** The first k bits of x, then the bits of x shifted right by k. */
  lemma BitsSplit(x: nat, k: nat, j: nat)
    ensures Bits(x, k + j) == Bits(x, k) + Bits(Rshift(x, k), j)
  {
    Euclid(x, Pow2(k));
    BitsSplitAt(x, k, j, Rshift(x, k), x % Pow2(k));
  }

  lemma BitsSplitAt(x: nat, k: nat, j: nat, q: nat, r: nat)
    requires r < Pow2(k) && x == r + q * Pow2(k)
    ensures Bits(x, k + j) == Bits(x, k) + Bits(q, j)
    ensures Bits(x, k) == Bits(r, k)
  {
    BitsConcat(x, r, k, q, j);
    BitsConcat(x, r, k, q, 0);
    assert Bits(x, k + 0) == Bits(x, k);
  }

  /** Reducing x modulo 2^n keeps its low m <= n bits. */
  lemma BitsMod(x: nat, n: nat, m: nat)
    requires m <= n
    ensures Bits(x % Pow2(n), m) == Bits(x, m)
  {
    Euclid(x, Pow2(n));
    BitsSplitAt(x, n, 0, Rshift(x, n), x % Pow2(n));
    BitsPrefix(x, m, n);
    BitsPrefix(x % Pow2(n), m, n);
  }

  /** The low m bits are a prefix of the low n >= m bits. */
  lemma BitsPrefix(x: nat, m: nat, n: nat)
    requires m <= n
    ensures Bits(x, m) == Bits(x, n)[..m]
  {
    BitsSplit(x, m, n - m);
  }

  /** An n-bit value is determined by its n bits. */
  lemma {:induction false} BitsInjective(x: nat, y: nat, n: nat)
    requires x < Pow2(n) && y < Pow2(n)
    requires Bits(x, n) == Bits(y, n)
    ensures x == y
  {
    if n > 0 {
      assert Bits(x, n)[0] == Bits(y, n)[0];
      assert Bits(x / 2, n - 1) == Bits(x, n)[1..] == Bits(y, n)[1..] == Bits(y / 2, n - 1);
      BitsInjective(x / 2, y / 2, n - 1);
    }
  }

  /** `bitmask(n)` has all of its n low bits set. */
  lemma {:induction false} BitsOnes(n: nat)
    ensures Bits(Bitmask(n), n) == Ones(n)
  {
    if n > 0 {
      BitsOnes(n - 1);
      assert Ones(n) == [true] + Ones(n - 1);
      assert Bitmask(n) / 2 == Bitmask(n - 1);
    }
  }

  lemma {:induction false} BitsZero(n: nat)
    ensures Bits(0, n) == Zeros(n)
  {
    if n > 0 {
      BitsZero(n - 1);
      assert Zeros(n) == [false] + Zeros(n - 1);
    }
  }

  /** A k-bit value read as a wider word is followed by zero bits. */
  lemma BitsZeroPad(x: nat, k: nat, j: nat)
    requires x < Pow2(k)
    ensures Bits(x, k + j) == Bits(x, k) + Zeros(j)
  {
    BitsConcat(x, x, k, 0, j);
    BitsZero(j);
  }

  /** An n-bit value is zero exactly when all of its bits are clear. */
  lemma BitsAllZero(x: nat, n: nat)
    requires x < Pow2(n)
    ensures Bits(x, n) == Zeros(n) <==> x == 0
  {
    BitsZero(n);
    if Bits(x, n) == Zeros(n) {
      BitsInjective(x, 0, n);
    }
  }

  lemma {:induction false} FlattenLength(ws: seq<nat>, w: nat)
    ensures |Flatten(ws, w)| == |ws| * w
  {
    if |ws| > 0 {
      FlattenLength(ws[1..], w);
      assert |ws| * w == w + (|ws| - 1) * w;
    }
  }

  lemma {:induction false} FlattenAppend(ws: seq<nat>, x: nat, w: nat)
    ensures Flatten(ws + [x], w) == Flatten(ws, w) + Bits(x, w)
  {
    if |ws| > 0 {
      assert (ws + [x])[1..] == ws[1..] + [x];
      FlattenAppend(ws[1..], x, w);
    }
  }
}
