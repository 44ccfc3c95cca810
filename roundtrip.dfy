/** What the writer and the reader promise together: fields written one
    after another, then word-aligned, read back in the same widths, come
    back as the low bits of the values written. */
module BitStreamProps {
  import opened BitArith
  import opened BitSeqs
  import opened OBStreams
  import opened IBStreams

  /** One `write(value, len)` call. */
  datatype Field = Field(value: nat, len: nat)

  /** The bits a sequence of fields contributes to the stream, in order. */
  function FieldBits(fs: seq<Field>): seq<bool>
  {
    if fs == [] then [] else FieldBits(fs[..|fs| - 1]) + Bits(fs[|fs| - 1].value, fs[|fs| - 1].len)
  }

  lemma FieldBitsStep(fs: seq<Field>, i: nat)
    requires i < |fs|
    ensures FieldBits(fs[..i + 1]) == FieldBits(fs[..i]) + Bits(fs[i].value, fs[i].len)
  {
    assert fs[..i + 1][..i] == fs[..i];
  }

  /** The bits of the first j fields are a prefix of the bits of all of them. */
  lemma {:induction false} FieldBitsPrefix(fs: seq<Field>, j: nat)
    requires j <= |fs|
    ensures |FieldBits(fs[..j])| <= |FieldBits(fs)|
    ensures FieldBits(fs)[..|FieldBits(fs[..j])|] == FieldBits(fs[..j])
    decreases |fs| - j
  {
    if j == |fs| {
      assert fs[..j] == fs;
    } else {
      FieldBitsPrefix(fs, j + 1);
      FieldBitsStep(fs, j);
    }
  }

  /** The bits of field i sit right after those of the fields before it. */
  lemma FieldAt(fs: seq<Field>, i: nat, pad: seq<bool>)
    requires i < |fs|
    ensures var k := |FieldBits(fs[..i])|;
            k + fs[i].len <= |FieldBits(fs)| &&
            (FieldBits(fs) + pad)[k..k + fs[i].len] == Bits(fs[i].value, fs[i].len)
  {
    FieldBitsStep(fs, i);
    FieldBitsPrefix(fs, i + 1);
    var k := |FieldBits(fs[..i])|;
    var t := FieldBits(fs) + pad;
    assert t[..k + fs[i].len] == FieldBits(fs[..i]) + Bits(fs[i].value, fs[i].len);
    assert t[k..k + fs[i].len] == t[..k + fs[i].len][k..];
  }

  /** The value each field reads back as: its low len bits. */
  function LowBits(fs: seq<Field>): (vs: seq<nat>)
    ensures |vs| == |fs|
  {
    seq(|fs|, j requires 0 <= j < |fs| => fs[j].value % Pow2(fs[j].len))
  }

  lemma LowBitsStep(fs: seq<Field>, i: nat)
    requires i < |fs|
    ensures LowBits(fs[..i + 1]) == LowBits(fs[..i]) + [fs[i].value % Pow2(fs[i].len)]
  {
  }

  /** Once every word is fetched, only the buffered bits are left. */
  lemma NothingLeft(src: seq<nat>, pos: nat, width: nat)
    requires pos <= |src|
    ensures pos == |src| ==> Flatten(src[pos..], width) == []
  {
    if pos == |src| {
      assert src[pos..] == [];
    }
  }

  /** Taking x off the front of t[k..] leaves t[k + |x|..]. */
  lemma TakeStep(t: seq<bool>, k: nat, x: seq<bool>, rest: seq<bool>)
    requires k <= |t| && x + rest == t[k..]
    ensures k + |x| <= |t| && x == t[k..k + |x|] && rest == t[k + |x|..]
  {
    assert x == t[k..][..|x|] && rest == t[k..][|x|..];
  }

  /** Bits that equal the low len bits of a value identify the value modulo 2^len. */
  lemma ValueFromBits(r: nat, v: nat, len: nat)
    requires r < Pow2(len) && Bits(r, len) == Bits(v, len)
    ensures r == v % Pow2(len)
  {
    BitsMod(v, len, len);
    BitsInjective(r, v % Pow2(len), len);
  }

  /** Reading field i off the bits that follow fields 0 to i - 1 yields its
      low len bits and leaves the bits that follow fields 0 to i. */
  lemma ReadFieldStep(fs: seq<Field>, i: nat, pad: seq<bool>, v: nat, rem: seq<bool>, rem': seq<bool>)
    requires i < |fs|
    requires |FieldBits(fs[..i])| <= |FieldBits(fs) + pad| && rem == (FieldBits(fs) + pad)[|FieldBits(fs[..i])|..]
    requires v < Pow2(fs[i].len) && Bits(v, fs[i].len) + rem' == rem
    ensures |FieldBits(fs[..i + 1])| <= |FieldBits(fs) + pad|
    ensures rem' == (FieldBits(fs) + pad)[|FieldBits(fs[..i + 1])|..]
    ensures v == fs[i].value % Pow2(fs[i].len)
  {
    var t, k := FieldBits(fs) + pad, |FieldBits(fs[..i])|;
    FieldAt(fs, i, pad);
    TakeStep(t, k, Bits(v, fs[i].len), rem');
    ValueFromBits(v, fs[i].value, fs[i].len);
    FieldBitsStep(fs, i);
  }

  /** `read(len)` on a clean reader that has at least len bits left: the
      result is exactly the next len bits, and the reader stays clean. */
  method ReadAvailable(rd: IBStream, len: nat) returns (v: nat)
    requires rd.Valid() && rd.Clean() && len <= rd.bword && len <= |rd.Remaining()|
    modifies rd
    ensures rd.Valid() && rd.Clean() && v < Pow2(len)
    ensures Bits(v, len) + rd.Remaining() == old(rd.Remaining())
  {
    NothingLeft(rd.source, rd.pos, rd.bword);
    v := rd.Read(len);
  }

  /** Every word fits in width bits. */
  ghost predicate InRange(ws: seq<nat>, width: nat)
  {
    forall j :: 0 <= j < |ws| ==> ws[j] < Pow2(width)
  }

  /** Words in range stay in range when one more word in range is emitted. */
  lemma InRangeStep(ws: seq<nat>, ws': seq<nat>, width: nat)
    requires InRange(ws, width)
    requires ws' == ws || (|ws'| == |ws| + 1 && ws'[..|ws|] == ws && ws'[|ws|] < Pow2(width))
    ensures InRange(ws', width)
  {
    if ws' != ws {
      assert ws' == ws + [ws'[|ws|]];
    }
  }

  /** Write every field with `write(value, len)` and then `close()`: the
      words emitted hold the fields' bits followed by less than a word of
      zero padding. */
  method WriteFields(bword: nat, fs: seq<Field>) returns (words: seq<nat>)
    requires bword > 0 && bword % 8 == 0
    requires forall i :: 0 <= i < |fs| ==> fs[i].value < Pow2(bword) && fs[i].len <= bword
    ensures forall j :: 0 <= j < |words| ==> words[j] < Pow2(bword)
    ensures |FieldBits(fs)| <= |Flatten(words, bword)| < |FieldBits(fs)| + bword
    ensures Flatten(words, bword) == FieldBits(fs) + Zeros(|Flatten(words, bword)| - |FieldBits(fs)|)
  {
    var wr := new OBStream(bword);
    var i := 0;
    assert fs[..0] == [];
    while i < |fs|
      invariant 0 <= i <= |fs|
      invariant wr.Valid() && wr.bword == bword
      invariant wr.Stream() == FieldBits(fs[..i])
      invariant InRange(wr.out, bword)
    {
      ghost var before := wr.out;
      wr.Write(fs[i].value, fs[i].len);
      InRangeStep(before, wr.out, bword);
      FieldBitsStep(fs, i);
      i := i + 1;
    }
    assert fs[..i] == fs;
    ghost var before := wr.out;
    wr.Close();
    InRangeStep(before, wr.out, bword);
    words := wr.out;
  }

  /** Read the fields back with `read(len)` in the same widths from words
      whose bits begin with the fields' bits: each value read is the low
      len bits of the value written. */
  method ReadFields(bword: nat, words: seq<nat>, fs: seq<Field>) returns (values: seq<nat>)
    requires bword > 0 && bword % 8 == 0
    requires forall j :: 0 <= j < |words| ==> words[j] < Pow2(bword)
    requires forall i :: 0 <= i < |fs| ==> fs[i].len <= bword
    requires |FieldBits(fs)| <= |Flatten(words, bword)|
    requires Flatten(words, bword)[..|FieldBits(fs)|] == FieldBits(fs)
    ensures |values| == |fs|
    ensures forall i :: 0 <= i < |fs| ==> values[i] == fs[i].value % Pow2(fs[i].len)
  {
    ghost var t := Flatten(words, bword);
    ghost var pad := t[|FieldBits(fs)|..];
    assert t == FieldBits(fs) + pad;
    var rd := new IBStream(bword, words);
    values := [];
    var i := 0;
    assert fs[..0] == [];
    while i < |fs|
      invariant 0 <= i <= |fs|
      invariant rd.Valid() && rd.Clean() && rd.bword == bword && rd.source == words
      invariant |FieldBits(fs[..i])| <= |t| && rd.Remaining() == t[|FieldBits(fs[..i])|..]
      invariant values == LowBits(fs[..i])
    {
      var len := fs[i].len;
      ghost var rem := rd.Remaining();
      FieldAt(fs, i, pad);
      var v := ReadAvailable(rd, len);
      ReadFieldStep(fs, i, pad, v, rem, rd.Remaining());
      LowBitsStep(fs, i);
      values := values + [v];
      i := i + 1;
    }
    assert fs[..i] == fs;
  }

  /** The two together: what is written and word-aligned reads back. */
  method RoundTrip(bword: nat, fs: seq<Field>) returns (words: seq<nat>, values: seq<nat>)
    requires bword > 0 && bword % 8 == 0
    requires forall i :: 0 <= i < |fs| ==> fs[i].value < Pow2(bword) && fs[i].len <= bword
    ensures |values| == |fs|
    ensures forall i :: 0 <= i < |fs| ==> values[i] == fs[i].value % Pow2(fs[i].len)
  {
    words := WriteFields(bword, fs);
    values := ReadFields(bword, words, fs);
  }
}
