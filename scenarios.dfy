/** Small concrete runs of the writer and the reader on 8-bit words. */
module BitStreamScenarios {
  import opened BitArith
  import opened BitSeqs
  import opened WordOps
  import opened OBStreams
  import opened IBStreams

  lemma Pow2Facts()
    ensures Pow2(0) == 1 && Pow2(2) == 4 && Pow2(3) == 8 && Pow2(5) == 32 && Pow2(8) == 256
  {
  }

  lemma PackedBits()
    ensures Bits(5, 3) + Bits(3, 2) == Bits(29, 5)
  {
  }

  /** Three bits of 5 and then two bits of 3 share one word: 5 sits in
      bits 0-2 and 3 in bits 3-4, so `close()` emits 5 + 3 * 8 = 29, and
      reading 3 and then 2 bits gives back 5 and 3. */
  method PackTwoFields() returns (words: seq<nat>, a: nat, b: nat)
    ensures words == [29] && a == 5 && b == 3
  {
    Pow2Facts();
    var wr := new OBStream(8);
    wr.Write(5, 3);
    assert wr.out == [] && wr.boff == 3 && Bits(wr.buffer, 3) == Bits(5, 3);
    wr.Write(3, 2);
    assert wr.out == [] && wr.boff == 5 && Bits(wr.buffer, 5) == Bits(5, 3) + Bits(3, 2);
    PackedBits();
    BitsInjective(wr.buffer, 29, 5);
    wr.Close();
    words := wr.out;
    var rd := new IBStream(8, words);
    assert Or(0, Shl(29, 0, 8)) == 29;
    a := rd.Read(3);
    assert rd.buffer == 3 && rd.bleft == 5;
    b := rd.Read(2);
  }

  /** `align()` on the reader, as written: after reading 3 bits of the
      word 255, the 5 unread one bits are dropped from the count but stay
      in the buffer, and the next 8-bit read, which should deliver the
      next word 0, returns 31 instead. */
  method AlignLeak() returns (first: nat, second: nat)
    ensures first == 7 && second == 31
  {
    Pow2Facts();
    var rd := new IBStream(8, [255, 0]);
    assert Or(0, Shl(255, 0, 8)) == 255;
    first := rd.Read(3);
    assert rd.buffer == 31 && rd.bleft == 5 && rd.pos == 1;
    rd.Align();
    assert rd.Remaining() == Bits(0, 8);
    assert Or(31, Shl(0, 0, 8)) == 31;
    second := rd.Read(8);
  }

  /** The same reads with the dropped bits cleared: the 8-bit read after
      the alignment returns the next word, 0. */
  method AlignClearedNoLeak() returns (first: nat, second: nat)
    ensures first == 7 && second == 0
  {
    Pow2Facts();
    var rd := new IBStream(8, [255, 0]);
    assert Or(0, Shl(255, 0, 8)) == 255;
    first := rd.Read(3);
    rd.AlignCleared();
    assert Or(0, Shl(0, 0, 8)) == 0;
    second := rd.Read(8);
  }
}
