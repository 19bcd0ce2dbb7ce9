/** Little-endian 32-bit words from a byte block, as both SRS decoders
    build them: word k is bytes 4k .. 4k+3, least significant first. */
module SrsWords {
  import opened Bytes

  function Word(b0: Byte, b1: Byte, b2: Byte, b3: Byte): Word32
  {
    b0 as int + 0x100 * b1 as int + 0x1_0000 * b2 as int + 0x100_0000 * b3 as int
  }

  /** The words of a block whose length is a multiple of four. */
  function Words32(b: seq<Byte>): (w: seq<Word32>)
    requires |b| % 4 == 0
    ensures |w| == |b| / 4
  {
    if b == [] then [] else [Word(b[0], b[1], b[2], b[3])] + Words32(b[4..])
  }

  lemma {:induction false} Words32At(b: seq<Byte>, k: nat)
    requires |b| % 4 == 0 && k < |b| / 4
    ensures Words32(b)[k] == Word(b[4 * k], b[4 * k + 1], b[4 * k + 2], b[4 * k + 3])
  {
    if k > 0 {
      Words32At(b[4..], k - 1);
      assert b[4..][4 * (k - 1)] == b[4 * k];
      assert b[4..][4 * (k - 1) + 1] == b[4 * k + 1];
      assert b[4..][4 * (k - 1) + 2] == b[4 * k + 2];
      assert b[4..][4 * (k - 1) + 3] == b[4 * k + 3];
    }
  }

  /** The four bytes of a word, least significant first. */
  function WordBytes(x: Word32): (b: seq<Byte>)
    ensures |b| == 4
  {
    [x % 0x100, (x / 0x100) % 0x100, (x / 0x1_0000) % 0x100, x / 0x100_0000]
  }

  lemma WordOfWordBytes(x: Word32)
    ensures var b := WordBytes(x); Word(b[0], b[1], b[2], b[3]) == x
  {
    var q1 := x / 0x100;
    var q2 := q1 / 0x100;
    var q3 := q2 / 0x100;
    assert x == x % 0x100 + 0x100 * q1;
    assert q1 == q1 % 0x100 + 0x100 * q2;
    assert q2 == q2 % 0x100 + 0x100 * q3;
    assert x / 0x1_0000 == q2;
    assert x / 0x100_0000 == q3;
  }

  lemma ByteStep(r: Byte, a: nat)
    ensures (r + 0x100 * a) / 0x100 == a && (r + 0x100 * a) % 0x100 == r
  {
  }

  /** Dividing by 2^16 is dividing by 2^8 twice, and likewise for 2^24. */
  lemma DivDiv(x: nat)
    ensures x / 0x1_0000 == (x / 0x100) / 0x100
    ensures x / 0x100_0000 == ((x / 0x100) / 0x100) / 0x100
  {
    var q1 := x / 0x100;
    var q2 := q1 / 0x100;
    var q3 := q2 / 0x100;
    assert x == 0x1_0000 * q2 + (0x100 * (q1 % 0x100) + x % 0x100);
    assert x == 0x100_0000 * q3 + (0x1_0000 * (q2 % 0x100) + 0x100 * (q1 % 0x100) + x % 0x100);
  }

  lemma WordBytesOfWord(b0: Byte, b1: Byte, b2: Byte, b3: Byte)
    ensures WordBytes(Word(b0, b1, b2, b3)) == [b0, b1, b2, b3]
  {
    var m2: nat := b2 + 0x100 * b3;
    var m1: nat := b1 + 0x100 * m2;
    var x: nat := Word(b0, b1, b2, b3);
    assert x == b0 + 0x100 * m1;
    ByteStep(b0, m1);
    ByteStep(b1, m2);
    ByteStep(b2, b3);
    DivDiv(x);
  }

  /** The bytes of a word stream. */
  function Bytes32(w: seq<Word32>): (b: seq<Byte>)
    ensures |b| == 4 * |w|
  {
    if w == [] then [] else WordBytes(w[0]) + Bytes32(w[1..])
  }

  lemma {:induction false} Words32OfBytes32(w: seq<Word32>)
    ensures Words32(Bytes32(w)) == w
  {
    if w != [] {
      var b := Bytes32(w);
      Words32OfBytes32(w[1..]);
      WordOfWordBytes(w[0]);
      assert b[4..] == Bytes32(w[1..]);
      assert b[..4] == WordBytes(w[0]);
    }
  }

  /** Splitting the words back into bytes gives the block. */
  lemma {:induction false} Bytes32OfWords32(b: seq<Byte>)
    requires |b| % 4 == 0
    ensures Bytes32(Words32(b)) == b
  {
    if b != [] {
      Bytes32OfWords32(b[4..]);
      WordBytesOfWord(b[0], b[1], b[2], b[3]);
      assert Words32(b)[1..] == Words32(b[4..]);
      assert b == [b[0], b[1], b[2], b[3]] + b[4..];
    }
  }
}
