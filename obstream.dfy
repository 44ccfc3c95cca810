/** The bit writer `obstream`: fields of at most one word are packed into a
    one-word buffer from the low bits upward, and each word is emitted to the
    sink as soon as it is full. */
module OBStreams {
  import opened BitArith
  import opened BitSeqs
  import opened WordOps

  /** A field that fits below the word boundary lands just above the
      pending bits, and the pending bits stay below 2^(off + len). */
  lemma WriteFits(buf: nat, off: nat, m: nat, len: nat)
    requires buf < Pow2(off) && m < Pow2(len)
    ensures buf + m * Pow2(off) < Pow2(off + len)
    ensures Bits(buf + m * Pow2(off), off + len) == Bits(buf, off) + Bits(m, len)
  {
    CombineBound(buf, off, m, len);
    BitsConcat(buf + m * Pow2(off), buf, off, m, len);
  }

  /** The word a crossing field fills: the pending bits and then the low
      width - off bits of the field. */
  lemma SpillWord(buf: nat, off: nat, m: nat, width: nat)
    requires off < width && buf < Pow2(off)
    ensures buf + (m % Pow2(width - off)) * Pow2(off) < Pow2(width)
    ensures Bits(buf + (m % Pow2(width - off)) * Pow2(off), width) == Bits(buf, off) + Bits(m, width - off)
  {
    var k := width - off;
    var lo := m % Pow2(k);
    CombineBound(buf, off, lo, k);
    BitsConcat(buf + lo * Pow2(off), buf, off, lo, k);
    BitsMod(m, k, k);
  }

  /** A field that crosses the word boundary: the full word holds the
      pending bits and the low width - off bits of the field, the carry
      holds the rest of the field, and together they are the pending bits
      followed by the whole field. */
  lemma WriteSpills(buf: nat, off: nat, m: nat, len: nat, width: nat)
    requires off < width && len <= width && off + len >= width
    requires buf < Pow2(off) && m < Pow2(len)
    ensures buf + (m % Pow2(width - off)) * Pow2(off) < Pow2(width)
    ensures Rshift(m, width - off) < Pow2(off + len - width)
    ensures Bits(buf + (m % Pow2(width - off)) * Pow2(off), width)
            + Bits(Rshift(m, width - off), off + len - width)
         == Bits(buf, off) + Bits(m, len)
  {
    var k, j := width - off, off + len - width;
    assert k + j == len;
    SpillWord(buf, off, m, width);
    BitsSplit(m, k, j);
    DivBound(m, k, j);
    AppendAssoc(Bits(buf, off), Bits(m, k), Bits(Rshift(m, k), j));
  }

  /** `word | bitmask(width) << off` for pending bits below 2^off: the
      pending bits with every bit from off up to the top set. */
  lemma OnePadWord(buf: nat, off: nat, width: nat)
    requires 0 < off < width && buf < Pow2(off)
    ensures Or(buf, Shl(Bitmask(width), off, width)) == buf + Pow2(width) - Pow2(off)
    ensures buf + Pow2(width) - Pow2(off) < Pow2(width)
    ensures Bits(buf + Pow2(width) - Pow2(off), width) == Bits(buf, off) + Ones(width - off)
  {
    var k := width - off;
    Pow2Add(off, k);
    AllOnesSplit(Pow2(off), Pow2(k));
    var hi := Bitmask(k) * Pow2(off);
    assert Shl(Bitmask(width), off, width) == hi;
    OrDisjoint(buf, off, Bitmask(k), hi);
    BitsConcat(buf + hi, buf, off, Bitmask(k), k);
    BitsOnes(k);
  }

  /** One `write(w, len)` on pending bits buf below 2^off: the merged word
      `buf | (w & bitmask(len)) << off` holds the pending bits followed by
      the field, up to the word boundary; when the boundary is crossed the
      carry `rshift(w & bitmask(len), width - off)` holds the rest of the
      field. */
  lemma WriteStep(buf: nat, off: nat, w: nat, len: nat, width: nat) returns (merged: nat, carry: nat)
    requires off < width && len <= width && buf < Pow2(off)
    ensures merged == Or(buf, Shl(And(w, Bitmask(len)), off, width))
    ensures carry == Rshift(And(w, Bitmask(len)), width - off)
    ensures off + len < width ==>
              && merged < Pow2(off + len)
              && Bits(merged, off + len) == Bits(buf, off) + Bits(w, len)
    ensures off + len >= width ==>
              && merged < Pow2(width)
              && carry < Pow2(off + len - width)
              && Bits(merged, width) == Bits(buf, off) + Bits(w, len)[..width - off]
              && Bits(carry, off + len - width) == Bits(w, len)[width - off..]
              && Bits(merged, width) + Bits(carry, off + len - width) == Bits(buf, off) + Bits(w, len)
  {
    AndBitmask(w, len);
    BitsMod(w, len, len);
    var m := And(w, Bitmask(len));
    var fit := m % Pow2(width - off);
    OrDisjoint(buf, off, fit, Shl(m, off, width));
    merged := Or(buf, Shl(m, off, width));
    carry := Rshift(m, width - off);
    if off + len >= width {
      WriteSpills(buf, off, m, len, width);
      var a, b := Bits(merged, width), Bits(carry, off + len - width);
      var c, d := Bits(buf, off), Bits(w, len);
      assert a + b == c + d;
      assert a == (a + b)[..width] == (c + d)[..width] == c + d[..width - off];
      assert b == (a + b)[width..] == (c + d)[width..] == d[width - off..];
    } else {
      Pow2Mono(len, width - off);
      ModSmall(m, Pow2(width - off));
      WriteFits(buf, off, m, len);
    }
  }

  /** The whole effect of `write(w, len)` on the sink, the buffer and the
      offset, computed the way the source computes it. */
  lemma WriteEffect(out: seq<nat>, buf: nat, off: nat, w: nat, len: nat, width: nat)
    returns (out': seq<nat>, buf': nat, off': nat)
    requires width > 0 && off < width && len <= width && buf < Pow2(off) && w < Pow2(width)
    ensures var m := And(w, Bitmask(len));
            var merged := Or(buf, Shl(m, off, width));
            && out' == (if off + len >= width then out + [merged] else out)
            && off' == (if off + len >= width then off + len - width else off + len)
            && buf' == (if off + len >= width then Rshift(m, len - off') else merged)
    ensures off' < width && buf' < Pow2(off')
    ensures Flatten(out', width) + Bits(buf', off') == Flatten(out, width) + Bits(buf, off) + Bits(w, len)
    ensures off + len < width ==>
      out' == out && off' == off + len &&
      Bits(buf', off') == Bits(buf, off) + Bits(w, len)
    ensures off + len >= width ==>
      |out'| == |out| + 1 && out'[..|out|] == out && out'[|out|] < Pow2(width) &&
      Bits(out'[|out|], width) == Bits(buf, off) + Bits(w, len)[..width - off] &&
      off' == off + len - width &&
      Bits(buf', off') == Bits(w, len)[width - off..]
    ensures off == 0 && len == width ==> out' == out + [w] && off' == 0 && buf' == 0
  {
    var e, c := WriteStep(buf, off, w, len, width);
    if off + len >= width {
      out', buf', off' := out + [e], c, off + len - width;
      EmitWord(out, e, width, Bits(buf, off), Bits(w, len), Bits(c, off'));
      if off == 0 && len == width {
        BitsInjective(e, w, width);
      }
    } else {
      out', buf', off' := out, e, off + len;
      AppendAssoc(Flatten(out, width), Bits(buf, off), Bits(w, len));
    }
  }

  /** Padding the pending bits with pad zero bits, without writing them,
      and emitting the word if that fills it: the stream grows by exactly
      the zero bits. */
  lemma ZeroPadEffect(out: seq<nat>, buf: nat, off: nat, pad: nat, width: nat)
    returns (out': seq<nat>, buf': nat, off': nat)
    requires off < width && off + pad <= width && buf < Pow2(off)
    ensures out' == (if off + pad == width then out + [buf] else out)
    ensures buf' == (if off + pad == width then 0 else buf)
    ensures off' == (if off + pad == width then 0 else off + pad)
    ensures off' < width && buf' < Pow2(off') && buf < Pow2(width)
    ensures Flatten(out', width) + Bits(buf', off') == Flatten(out, width) + Bits(buf, off) + Zeros(pad)
  {
    BitsZeroPad(buf, off, pad);
    Pow2Mono(off, off + pad);
    Pow2Mono(off, width);
    if off + pad == width {
      out', buf', off' := out + [buf], 0, 0;
      EmitWord(out, buf, width, Bits(buf, off), Zeros(pad), []);
    } else {
      out', buf', off' := out, buf, off + pad;
      AppendAssoc(Flatten(out, width), Bits(buf, off), Zeros(pad));
    }
  }

  /** The all-ones word of p * k values, split at k. */
  lemma AllOnesSplit(p: int, k: int)
    requires p > 0 && k > 0
    ensures (p * k - 1) % k == k - 1
    ensures (k - 1) * p == p * k - p
  {
    DivModUnique(p * k - 1, k, p - 1, k - 1);
  }

  /** Emitting a word e whose bits, followed by what stays pending, are the
      previously pending bits followed by the added bits, extends the stream
      by exactly the added bits. */
  lemma EmitWord(ws: seq<nat>, e: nat, width: nat, pending: seq<bool>, added: seq<bool>, rest: seq<bool>)
    requires Bits(e, width) + rest == pending + added
    ensures Flatten(ws + [e], width) + rest == (Flatten(ws, width) + pending) + added
  {
    FlattenAppend(ws, e, width);
    var f := Flatten(ws, width);
    calc {
      Flatten(ws + [e], width) + rest;
      (f + Bits(e, width)) + rest;
      { AppendAssoc(f, Bits(e, width), rest); }
      f + (Bits(e, width) + rest);
      f + (pending + added);
      { AppendAssoc(f, pending, added); }
      (f + pending) + added;
    }
  }

  lemma AppendAssoc(a: seq<bool>, b: seq<bool>, c: seq<bool>)
    ensures (a + b) + c == a + (b + c)
  {
  }

  /** Rounding an offset inside a word up to a multiple of 8 stays within
      the word, because the word width is itself a multiple of 8. */
  lemma ByteBoundary(off: nat, width: nat)
    requires width % 8 == 0 && off < width && off % 8 != 0
    ensures off + 8 - off % 8 <= width && (off + 8 - off % 8) % 8 == 0
    ensures (8 - off % 8) % 8 == 8 - off % 8
  {
  }

  class OBStream {
    /** `bword`: the width in bits of the word type. */
    const bword: nat
    /** Every word emitted to the sink so far, oldest first. */
    var out: seq<nat>
    /** `boff`: the number of pending bits in `buffer`. */
    var boff: nat
    var buffer: nat

    /** The writer's invariant: fewer than a word is pending, and nothing
        is set in `buffer` at or above `boff`. */
    ghost predicate Valid()
      reads this
    {
      bword > 0 && bword % 8 == 0 && boff < bword && buffer < Pow2(boff)
    }

    /** Every bit written so far, padding included, oldest first: the
        emitted words and then the pending bits. */
    ghost function Stream(): seq<bool>
      reads this
    {
      Flatten(out, bword) + Bits(buffer, boff)
    }

    constructor (bword: nat)
      requires bword > 0 && bword % 8 == 0
      ensures Valid() && this.bword == bword
      ensures out == [] && boff == 0 && buffer == 0
    {
      this.bword := bword;
      out, boff, buffer := [], 0, 0;
    }

    /** `write(w, len)`: append the low len bits of w; emit the word when
        it fills up and keep the rest of the field pending. */
    method Write(w: nat, len: nat)
      requires Valid() && w < Pow2(bword) && len <= bword
      modifies this
      ensures Valid()
      ensures Stream() == old(Stream()) + Bits(w, len)
      ensures old(boff) + len < bword ==>
        out == old(out) && boff == old(boff) + len &&
        Bits(buffer, boff) == Bits(old(buffer), old(boff)) + Bits(w, len)
      ensures old(boff) + len >= bword ==>
        |out| == |old(out)| + 1 && out[..|old(out)|] == old(out) && out[|old(out)|] < Pow2(bword) &&
        Bits(out[|old(out)|], bword) == Bits(old(buffer), old(boff)) + Bits(w, len)[..bword - old(boff)] &&
        boff == old(boff) + len - bword &&
        Bits(buffer, boff) == Bits(w, len)[bword - old(boff)..]
      ensures old(boff) == 0 && len == bword ==> out == old(out) + [w] && boff == 0 && buffer == 0
    {
      ghost var out1, buf1, off1 := WriteEffect(out, buffer, boff, w, len, bword);
      var m := And(w, Bitmask(len));
      buffer := Or(buffer, Shl(m, boff, bword));
      boff := boff + len;
      if boff >= bword {
        out := out + [buffer];
        boff := boff - bword;
        buffer := Rshift(m, len - boff);
      }
      assert out == out1 && buffer == buf1 && boff == off1;
    }

    /** `align()`: emit the partial word, if any, padded with zero bits. */
    method Align()
      requires Valid()
      modifies this
      ensures Valid() && boff == 0 && buffer == 0
      ensures out == if old(boff) > 0 then old(out) + [old(buffer)] else old(out)
      ensures old(buffer) < Pow2(bword)
      ensures Stream() == old(Stream()) + Zeros(if old(boff) > 0 then bword - old(boff) else 0)
    {
      if boff > 0 {
        ghost var out1, buf1, off1 := ZeroPadEffect(out, buffer, boff, bword - boff, bword);
        out := out + [buffer];
        buffer := 0;
        boff := 0;
      } else {
        assert Zeros(0) == [];
      }
    }

    /** `byte_align()`: pad with zero bits up to the next multiple of 8,
        emitting the word only if the padding fills it.  The padding is
        never written: it is zero because nothing is set above `boff`. */
    method ByteAlign()
      requires Valid()
      modifies this
      ensures Valid() && boff % 8 == 0
      ensures old(boff) % 8 == 0 ==>
                out == old(out) && boff == old(boff) && buffer == old(buffer)
      ensures old(boff) % 8 != 0 && old(boff) + 8 - old(boff) % 8 == bword ==>
                out == old(out) + [old(buffer)] && old(buffer) < Pow2(bword) && boff == 0 && buffer == 0
      ensures old(boff) % 8 != 0 && old(boff) + 8 - old(boff) % 8 < bword ==>
                out == old(out) && boff == old(boff) + 8 - old(boff) % 8 && buffer == old(buffer)
      ensures Stream() == old(Stream()) + Zeros((8 - old(boff) % 8) % 8)
    {
      var remain := boff % 8;
      if remain != 0 {
        ByteBoundary(boff, bword);
        ghost var out1, buf1, off1 := ZeroPadEffect(out, buffer, boff, 8 - remain, bword);
        boff := boff + 8 - remain;
        if boff == bword {
          out := out + [buffer];
          buffer := 0;
          boff := 0;
        }
        assert out == out1 && buffer == buf1 && boff == off1;
      } else {
        assert Zeros(0) == [];
      }
    }

    /** `one_pad()`: fill the rest of the partial word, if any, with one
        bits and emit it. */
    method OnePad()
      requires Valid()
      modifies this
      ensures Valid() && boff == 0 && buffer == 0
      ensures out == if old(boff) > 0
                     then old(out) + [old(buffer) + Pow2(bword) - Pow2(old(boff))]
                     else old(out)
      ensures old(boff) > 0 ==>
                out[|out| - 1] < Pow2(bword) &&
                Bits(out[|out| - 1], bword) == Bits(old(buffer), old(boff)) + Ones(bword - old(boff))
      ensures Stream() == old(Stream()) + Ones(if old(boff) > 0 then bword - old(boff) else 0)
    {
      if boff > 0 {
        OnePadWord(buffer, boff, bword);
        EmitWord(out, buffer + Pow2(bword) - Pow2(boff), bword, Bits(buffer, boff), Ones(bword - boff), []);
        buffer := Or(buffer, Shl(Bitmask(bword), boff, bword));
        out := out + [buffer];
        buffer := 0;
        boff := 0;
      } else {
        assert Ones(0) == [];
      }
    }

    /** `close()`: the same as `align()`. */
    method Close()
      requires Valid()
      modifies this
      ensures Valid() && boff == 0 && buffer == 0
      ensures out == if old(boff) > 0 then old(out) + [old(buffer)] else old(out)
      ensures old(buffer) < Pow2(bword)
      ensures Stream() == old(Stream()) + Zeros(if old(boff) > 0 then bword - old(boff) else 0)
    {
      Align();
    }
  }
}
