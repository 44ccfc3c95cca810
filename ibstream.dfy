/** The bit reader `ibstream`: the mirror of the writer.  It keeps the
    unread low-order bits of the last word it fetched and pulls one more
    word from the source only when a request needs more bits than it has. */
module IBStreams {
  import opened BitArith
  import opened BitSeqs
  import opened WordOps

  /** A request served from the buffer: the low len bits are the result
      and the rest stay unread, below 2^(left - len). */
  lemma ReadBuffered(buf: nat, left: nat, len: nat)
    requires len <= left && buf < Pow2(left)
    ensures Rshift(buf, len) < Pow2(left - len)
    ensures Bits(buf % Pow2(len), len) + Bits(Rshift(buf, len), left - len) == Bits(buf, left)
  {
    BitsSplit(buf, len, left - len);
    BitsMod(buf, len, len);
    DivBound(buf, len, left - len);
  }

  /** A request that needs a fresh word: `buf | word << left`, masked to
      len bits, is the left buffered bits followed by the low len - left bits
      of the word, and the word's other bits stay unread. */
  lemma ReadRefill(buf: nat, left: nat, word: nat, len: nat, width: nat)
    requires left < len <= width && buf < Pow2(left) && word < Pow2(width)
    ensures Or(buf, Shl(word, left, width)) % Pow2(len) < Pow2(len)
    ensures Bits(Or(buf, Shl(word, left, width)) % Pow2(len), len)
            == Bits(buf, left) + Bits(word, len - left)
    ensures Rshift(word, len - left) < Pow2(width - (len - left))
    ensures Bits(word, width) == Bits(word, len - left) + Bits(Rshift(word, len - left), width - (len - left))
  {
    var used := len - left;
    var s := RefillMerge(buf, left, word, len, width);
    BitsMod(s, len, len);
    BitsSplit(word, used, width - used);
    DivBound(word, used, width - used);
  }

  /** The merged word before masking: its low len bits are the buffered
      bits and then the low len - left bits of the word. */
  lemma RefillMerge(buf: nat, left: nat, word: nat, len: nat, width: nat) returns (s: nat)
    requires left < len <= width && buf < Pow2(left) && word < Pow2(width)
    ensures s == Or(buf, Shl(word, left, width))
    ensures Bits(s, len) == Bits(buf, left) + Bits(word, len - left)
  {
    var used := len - left;
    var lo := word % Pow2(width - left);
    s := buf + lo * Pow2(left);
    OrDisjoint(buf, left, lo, Shl(word, left, width));
    BitsConcat(s, buf, left, lo, width - left);
    BitsPrefix(s, len, width);
    BitsPrefix(lo, used, width - left);
    BitsMod(word, width - left, used);
  }

  /** Fetching a word: the unread input is that word's bits and then the rest. */
  lemma FlattenDrop(src: seq<nat>, pos: nat, width: nat)
    requires pos < |src|
    ensures Flatten(src[pos..], width) == Bits(src[pos], width) + Flatten(src[pos + 1..], width)
  {
    assert src[pos..][0] == src[pos] && src[pos..][1..] == src[pos + 1..];
  }

  /** Regrouping (a + b) + (c + f) around a word whose bits are b + c. */
  lemma Regroup(a: seq<bool>, b: seq<bool>, c: seq<bool>, f: seq<bool>, w: seq<bool>)
    requires w == b + c
    ensures (a + b) + (c + f) == a + (w + f)
  {
  }

  /** A refill on a clean buffer consumes exactly the next len bits. */
  lemma RefillStream(buf: nat, left: nat, src: seq<nat>, pos: nat, len: nat, width: nat)
    requires left < len <= width && buf < Pow2(left) && pos < |src| && src[pos] < Pow2(width)
    ensures Rshift(src[pos], len - left) < Pow2(width - (len - left))
    ensures Bits(Or(buf, Shl(src[pos], left, width)) % Pow2(len), len)
            + (Bits(Rshift(src[pos], len - left), width - (len - left)) + Flatten(src[pos + 1..], width))
            == Bits(buf, left) + Flatten(src[pos..], width)
  {
    var word := src[pos];
    ReadRefill(buf, left, word, len, width);
    FlattenDrop(src, pos, width);
    Regroup(Bits(buf, left), Bits(word, len - left), Bits(Rshift(word, len - left), width - (len - left)),
            Flatten(src[pos + 1..], width), Bits(word, width));
  }

  /** The whole effect of `read(len)`, computed the way the source
      computes it; on a clean buffer (nothing set at or above `left`) the
      result is the next len bits of the input and the buffer stays clean. */
  lemma ReadEffect(buf: nat, left: nat, src: seq<nat>, pos: nat, len: nat, width: nat)
    returns (r: nat, buf': nat, left': nat, pos': nat)
    requires left < width && len <= width && buf < Pow2(width) && pos <= |src|
    requires len > left ==> pos < |src| && src[pos] < Pow2(width)
    ensures pos' == (if len > left then pos + 1 else pos)
    ensures left' == (if len > left then width - (len - left) else left - len)
    ensures buf' == (if len > left then Rshift(src[pos], len - left) else Rshift(buf, len))
    ensures r == (if len > left then Or(buf, Shl(src[pos], left, width)) else buf) % Pow2(len)
    ensures r < Pow2(len) && left' < width && buf' < Pow2(width)
    ensures buf < Pow2(left) ==>
              buf' < Pow2(left') &&
              Bits(r, len) + (Bits(buf', left') + Flatten(src[pos'..], width))
              == Bits(buf, left) + Flatten(src[pos..], width)
  {
    if len > left {
      var word := src[pos];
      r, buf', left', pos' := Or(buf, Shl(word, left, width)) % Pow2(len),
                              Rshift(word, len - left), width - (len - left), pos + 1;
      if buf < Pow2(left) {
        RefillStream(buf, left, src, pos, len, width);
      }
    } else {
      r, buf', left', pos' := buf % Pow2(len), Rshift(buf, len), left - len, pos;
      if buf < Pow2(left) {
        ReadBuffered(buf, left, len);
      }
    }
  }

  class IBStream {
    /** `bword`: the width in bits of the word type. */
    const bword: nat
    /** The words the source delivers, in order. */
    const source: seq<nat>
    /** The number of source words fetched so far. */
    var pos: nat
    /** `bleft`: the number of unread bits in `buffer`. */
    var bleft: nat
    var buffer: nat

    ghost predicate Valid()
      reads this
    {
      bword > 0 && bword % 8 == 0 && bleft < bword && buffer < Pow2(bword) &&
      pos <= |source| && forall i :: 0 <= i < |source| ==> source[i] < Pow2(bword)
    }

    /** Nothing is set in `buffer` at or above `bleft`: the buffer holds
        only unread bits. */
    ghost predicate Clean()
      reads this
    {
      buffer < Pow2(bleft)
    }

    /** The bits still to be read, in order: the unread buffered bits and
        then the words the source has not yet delivered. */
    ghost function Remaining(): seq<bool>
      requires pos <= |source|
      reads this
    {
      Bits(buffer, bleft) + Flatten(source[pos..], bword)
    }

    constructor (bword: nat, source: seq<nat>)
      requires bword > 0 && bword % 8 == 0
      requires forall i :: 0 <= i < |source| ==> source[i] < Pow2(bword)
      ensures Valid() && Clean() && this.bword == bword && this.source == source
      ensures pos == 0 && bleft == 0 && buffer == 0
      ensures Remaining() == Flatten(source, bword)
    {
      this.bword, this.source := bword, source;
      pos, bleft, buffer := 0, 0, 0;
      assert source[0..] == source;
    }

    /** `read(len)`: the next len bits, fetching one more source word when
        the buffer holds fewer than len. */
    method Read(len: nat) returns (r: nat)
      requires Valid() && len <= bword
      requires len > bleft ==> pos < |source|
      modifies this
      ensures Valid() && r < Pow2(len)
      ensures pos == old(pos) + (if len > old(bleft) then 1 else 0)
      ensures len <= old(bleft) ==>
                bleft == old(bleft) - len && buffer == Rshift(old(buffer), len) &&
                r == old(buffer) % Pow2(len)
      ensures len > old(bleft) ==>
                bleft == bword - (len - old(bleft)) &&
                buffer == Rshift(source[old(pos)], len - old(bleft)) &&
                r == Or(old(buffer), Shl(source[old(pos)], old(bleft), bword)) % Pow2(len)
      ensures old(Clean()) ==> Clean() && Bits(r, len) + Remaining() == old(Remaining())
    {
      ghost var r1, buf1, left1, pos1 := ReadEffect(buffer, bleft, source, pos, len, bword);
      var res := buffer;
      if len > bleft {
        var word := source[pos];
        pos := pos + 1;
        var used := len - bleft;
        res := Or(res, Shl(word, bleft, bword));
        bleft := bword - used;
        buffer := Rshift(word, used);
      } else {
        buffer := Rshift(buffer, len);
        bleft := bleft - len;
      }
      AndBitmask(res, len);
      r := And(res, Bitmask(len));
      assert r == r1 && buffer == buf1 && bleft == left1 && pos == pos1;
    }

    /** `align()`: forget the unread bits of the current word.  It does
        not clear them from `buffer`, so the next read starts cleanly at
        the next source word only when the dropped bits were all zero. */
    method Align()
      requires Valid()
      modifies this
      ensures Valid() && bleft == 0 && buffer == old(buffer) && pos == old(pos)
      ensures Remaining() == Flatten(source[pos..], bword)
      ensures old(Clean()) ==> (Clean() <==> Bits(old(buffer), old(bleft)) == Zeros(old(bleft)))
    {
      if Clean() {
        BitsAllZero(buffer, bleft);
      }
      bleft := 0;
    }

    /** `close()`: the same as `align()`. */
    method Close()
      requires Valid()
      modifies this
      ensures Valid() && bleft == 0 && buffer == old(buffer) && pos == old(pos)
      ensures Remaining() == Flatten(source[pos..], bword)
      ensures old(Clean()) ==> (Clean() <==> Bits(old(buffer), old(bleft)) == Zeros(old(bleft)))
    {
      Align();
    }

    /** Word alignment as the comment on `align()` describes it: drop the
        unread bits and clear them, so the next read starts at the next
        source word whatever the dropped bits were. */
    method AlignCleared()
      requires Valid()
      modifies this
      ensures Valid() && Clean() && bleft == 0 && buffer == 0 && pos == old(pos)
      ensures Remaining() == Flatten(source[pos..], bword)
    {
      bleft := 0;
      buffer := 0;
    }
  }
}
