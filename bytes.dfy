/** Fixed-width unsigned quantities shared by the SAMPIC and SRS decoders.
    The sources work on uint8_t, uint16_t and uint32_t; here each is an
    integer subset type, and every shift-and-mask of the sources is written
    as the equivalent division and remainder by a power of two. Where a
    routine works bit by bit, a 16-bit word is viewed as the sequence of its
    bits, least significant first. */
module Bytes {

  type Byte = x: int | 0 <= x < 0x100
  type Word16 = x: int | 0 <= x < 0x1_0000
  type Word32 = x: int | 0 <= x < 0x1_0000_0000

  /** `w & 0xff` */
  function LowByte(w: Word16): Byte
  {
    w % 0x100
  }

  /** `(w >> 8) & 0xff` */
  function HighByte(w: Word16): Byte
  {
    (w / 0x100) % 0x100
  }

  function Pow2(n: nat): (p: nat)
    ensures p >= 1
  {
    if n == 0 then 1 else 2 * Pow2(n - 1)
  }

  lemma Pow2Sixteen()
    ensures Pow2(16) == 0x1_0000
  {
    assert Pow2(2) == 4;
    assert Pow2(4) == 16;
    assert Pow2(8) == 0x100;
    assert Pow2(12) == 0x1000;
  }

  // ---------------------------------------------------------------------
  // Bits of a word
  // ---------------------------------------------------------------------

  /** The 16 bits of a word; index k has weight 2^k. */
  type Bits16 = s: seq<bool> | |s| == 16 witness seq(16, k => false)

  /** The low n bits of x, least significant first. */
  function ToBits(x: nat, n: nat): (s: seq<bool>)
    ensures |s| == n
  {
    if n == 0 then [] else [x % 2 == 1] + ToBits(x / 2, n - 1)
  }

  /** The number whose binary digits, least significant first, are s. */
  function FromBits(s: seq<bool>): (x: nat)
    ensures x < Pow2(|s|)
  {
    if s == [] then 0 else (if s[0] then 1 else 0) + 2 * FromBits(s[1..])
  }

  lemma {:induction false} FromBitsToBits(x: nat, n: nat)
    requires x < Pow2(n)
    ensures FromBits(ToBits(x, n)) == x
  {
    if n > 0 {
      FromBitsToBits(x / 2, n - 1);
      assert ToBits(x, n)[1..] == ToBits(x / 2, n - 1);
    }
  }

  lemma {:induction false} ToBitsFromBits(s: seq<bool>)
    ensures ToBits(FromBits(s), |s|) == s
  {
    if s != [] {
      ToBitsFromBits(s[1..]);
      var x := FromBits(s);
      assert x % 2 == 1 <==> s[0];
      assert x / 2 == FromBits(s[1..]);
    }
  }

  /** Halving a number moves each of its bits one place down; the top bit
      of the result is clear. */
  lemma {:induction false} ToBitsHalf(x: nat, n: nat, k: nat)
    requires x < Pow2(n) && k < n
    ensures ToBits(x / 2, n)[k] == (k + 1 < n && ToBits(x, n)[k + 1])
  {
    if k == 0 {
      if n > 1 {
        assert ToBits(x, n)[1] == ToBits(x / 2, n - 1)[0];
      } else {
        assert x / 2 == 0;
      }
    } else {
      ToBitsHalf(x / 2, n - 1, k - 1);
    }
  }

  /** The bits of a 16-bit word. */
  function BitsOf(w: Word16): (b: Bits16)
    ensures FromBits(b) == w
  {
    Pow2Sixteen();
    FromBitsToBits(w, 16);
    ToBits(w, 16)
  }

  /** The 16-bit word with the given bits. */
  function ValueOf(b: Bits16): (w: Word16)
    ensures BitsOf(w) == b
  {
    Pow2Sixteen();
    ToBitsFromBits(b);
    FromBits(b)
  }

  /** `a ^ b` on 16-bit words. */
  function Xor(a: Word16, b: Word16): Word16
  {
    ValueOf(seq(16, k requires 0 <= k < 16 => BitsOf(a)[k] != BitsOf(b)[k]))
  }

  /** Bits of `w >> 1`: bit k is bit k+1 of w, and bit 15 is clear. */
  lemma ShiftRightBits(w: Word16, k: nat)
    requires k < 16
    ensures BitsOf(w / 2)[k] == (k < 15 && BitsOf(w)[k + 1])
  {
    Pow2Sixteen();
    ToBitsHalf(w, 16, k);
  }
}
