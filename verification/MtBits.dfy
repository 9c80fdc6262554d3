/**
 * What the bit operations of Mt compute, without their bodies: both are linear over the field of
 * two elements, where ^ is the sum, so the images of the single bits are all there is to them.
 */
module MtBits {
  import opened Mt

  function Xor(x: bv32, y: bv32): bv32 { x ^ y }

  lemma XorAssoc(x: bv32, y: bv32, z: bv32)
    ensures Xor(Xor(x, y), z) == Xor(x, Xor(y, z))
  {
  }

  lemma XorComm(x: bv32, y: bv32)
    ensures Xor(x, y) == Xor(y, x)
  {
  }

  lemma XorSwap(a: bv32, b: bv32, c: bv32, d: bv32)
    ensures Xor(Xor(a, b), Xor(c, d)) == Xor(Xor(a, c), Xor(b, d))
  {
    hide *;
    XorAssoc(a, b, Xor(c, d));
    XorAssoc(b, c, d);
    XorComm(b, c);
    XorAssoc(c, b, d);
    XorAssoc(a, c, Xor(b, d));
  }

  // Tempering ----------------------------------------------------------------------------

  lemma Down11Linear(x: bv32, y: bv32)
    ensures Down11(Xor(x, y)) == Xor(Down11(x), Down11(y))
  {
  }

  lemma Step1Linear(x: bv32, y: bv32)
    ensures Step1(Xor(x, y)) == Xor(Step1(x), Step1(y))
  {
    hide Down11;
    Down11Linear(x, y);
    XorSwap(x, y, Down11(x), Down11(y));
  }

  lemma Up7Linear(x: bv32, y: bv32)
    ensures Up7(Xor(x, y)) == Xor(Up7(x), Up7(y))
  {
  }

  lemma Step2Linear(x: bv32, y: bv32)
    ensures Step2(Xor(x, y)) == Xor(Step2(x), Step2(y))
  {
    hide Up7;
    Up7Linear(x, y);
    XorSwap(x, y, Up7(x), Up7(y));
  }

  lemma Up15Linear(x: bv32, y: bv32)
    ensures Up15(Xor(x, y)) == Xor(Up15(x), Up15(y))
  {
  }

  lemma Step3Linear(x: bv32, y: bv32)
    ensures Step3(Xor(x, y)) == Xor(Step3(x), Step3(y))
  {
    hide Up15;
    Up15Linear(x, y);
    XorSwap(x, y, Up15(x), Up15(y));
  }

  lemma Down18Linear(x: bv32, y: bv32)
    ensures Down18(Xor(x, y)) == Xor(Down18(x), Down18(y))
  {
  }

  lemma Step4Linear(x: bv32, y: bv32)
    ensures Step4(Xor(x, y)) == Xor(Step4(x), Step4(y))
  {
    hide Down18;
    Down18Linear(x, y);
    XorSwap(x, y, Down18(x), Down18(y));
  }

  lemma StepsLinear(x: bv32, y: bv32)
    ensures TemperBits(Xor(x, y)) == Xor(TemperBits(x), TemperBits(y))
  {
    hide Step1, Step2, Step3, Step4, Xor;
    Step1Linear(x, y);
    Step2Linear(Step1(x), Step1(y));
    Step3Linear(Step2(Step1(x)), Step2(Step1(y)));
    Step4Linear(Step3(Step2(Step1(x))), Step3(Step2(Step1(y))));
  }

  lemma TemperLinear(x: bv32, y: bv32)
    ensures TemperBits(x ^ y) == TemperBits(x) ^ TemperBits(y)
  {
    hide TemperBits;
    StepsLinear(x, y);
  }

  /** The columns of the tempering matrix: every word is the sum of its bits. */
  lemma TemperColumns()
    ensures TemperBits(0x00000001) == 0x00400091 && TemperBits(0x00000002) == 0x00000002
    ensures TemperBits(0x00000004) == 0x01020244 && TemperBits(0x00000008) == 0x02040489
    ensures TemperBits(0x00000010) == 0x00000010 && TemperBits(0x00000020) == 0x08001220
    ensures TemperBits(0x00000040) == 0x00000040 && TemperBits(0x00000080) == 0x20404890
    ensures TemperBits(0x00000100) == 0x00800120 && TemperBits(0x00000200) == 0x01000240
    ensures TemperBits(0x00000400) == 0x02000480 && TemperBits(0x00000800) == 0x04440990
    ensures TemperBits(0x00001000) == 0x08081200 && TemperBits(0x00002000) == 0x01022244
    ensures TemperBits(0x00004000) == 0x22244C81 && TemperBits(0x00008000) == 0x40009010
    ensures TemperBits(0x00010000) == 0x88013220 && TemperBits(0x00020000) == 0x01020000
    ensures TemperBits(0x00040000) == 0x20444891 && TemperBits(0x00080000) == 0x04880022
    ensures TemperBits(0x00100000) == 0x09100044 && TemperBits(0x00200000) == 0x12200088
    ensures TemperBits(0x00400000) == 0x04440911 && TemperBits(0x00800000) == 0x08881222
    ensures TemperBits(0x01000000) == 0x81000040 && TemperBits(0x02000000) == 0x22204888
    ensures TemperBits(0x04000000) == 0x44009100 && TemperBits(0x08000000) == 0x88012200
    ensures TemperBits(0x10000000) == 0x11020440 && TemperBits(0x20000000) == 0x20040801
    ensures TemperBits(0x40000000) == 0x44081102 && TemperBits(0x80000000) == 0x88102204
  {
  }

  // The twist ----------------------------------------------------------------------------

  lemma JoinedLinear(u: bv32, l: bv32, u1: bv32, l1: bv32)
    ensures Joined(Xor(u, u1), Xor(l, l1)) == Xor(Joined(u, l), Joined(u1, l1))
  {
  }

  lemma HalfLinear(x: bv32, y: bv32)
    ensures Half(Xor(x, y)) == Xor(Half(x), Half(y))
  {
  }

  lemma LowBit(x: bv32, y: bv32)
    ensures (x & 0x01 == 0 || x & 0x01 == 1) && (x ^ y) & 0x01 == (x & 0x01) ^ (y & 0x01)
  {
  }

  lemma OddLinear(x: bv32, y: bv32)
    ensures Odd(Xor(x, y)) == Xor(Odd(x), Odd(y))
  {
    LowBit(x, y);
    LowBit(y, x);
    if x & 0x01 == 0 {
      assert Odd(x) == 0;
    } else if y & 0x01 == 0 {
      assert Odd(y) == 0;
    } else {
      assert Odd(x) == Odd(y) == MATRIX_A;
    }
  }

  lemma TwistedLinear(x: bv32, y: bv32)
    ensures Twisted(Xor(x, y)) == Xor(Twisted(x), Twisted(y))
  {
    hide *;
    TwistedIs(x);
    TwistedIs(y);
    TwistedIs(Xor(x, y));
    HalfLinear(x, y);
    OddLinear(x, y);
    XorSwap(Half(x), Half(y), Odd(x), Odd(y));
  }

  lemma TwistedIs(y: bv32)
    ensures Twisted(y) == Xor(Half(y), Odd(y))
  {
    hide Half, Odd;
  }

  lemma MixBitsIs(x: bv32, u: bv32, l: bv32)
    ensures MixBits(x, u, l) == Xor(x, Twisted(Joined(u, l)))
  {
    hide Twisted, Joined;
  }

  lemma MixSumsLinear(x: bv32, u: bv32, l: bv32, x1: bv32, u1: bv32, l1: bv32)
    ensures MixBits(Xor(x, x1), Xor(u, u1), Xor(l, l1)) == Xor(MixBits(x, u, l), MixBits(x1, u1, l1))
  {
    hide *;
    MixBitsIs(x, u, l);
    MixBitsIs(x1, u1, l1);
    MixBitsIs(Xor(x, x1), Xor(u, u1), Xor(l, l1));
    JoinedLinear(u, l, u1, l1);
    TwistedLinear(Joined(u, l), Joined(u1, l1));
    XorSwap(x, x1, Twisted(Joined(u, l)), Twisted(Joined(u1, l1)));
  }

  lemma MixLinear(x: bv32, u: bv32, l: bv32, x1: bv32, u1: bv32, l1: bv32)
    ensures MixBits(x ^ x1, u ^ u1, l ^ l1) == MixBits(x, u, l) ^ MixBits(x1, u1, l1)
  {
    hide MixBits;
    MixSumsLinear(x, u, l, x1, u1, l1);
  }

  /** x stays as it is and u gives its top bit. */
  lemma MixColumns(x: bv32, u: bv32)
    ensures MixBits(x, 0, 0) == x
    ensures MixBits(0, u, 0) == if u < 0x80000000 then 0 else 0x40000000
  {
  }

  /** l gives its other bits, one place lower, and the matrix when it is odd. */
  lemma MixLow(l: bv32)
    requires l < 0x40000000
    ensures MixBits(0, 0, 2 * l) == l && MixBits(0, 0, 2 * l + 1) == l ^ 0x9908B0DF
  {
  }

  lemma MixTop()
    ensures MixBits(0, 0, 0x80000000) == 0
  {
  }
}
