/**
 The 64-bit mixing function of xoshiro256/xoshiro.go. Every stage (addition of a
 constant, xor-shift, multiplication by an odd constant, rotation) can be undone,
 so the whole function is a bijection on 64-bit words.
 */
module Xoshiro256 {

  // ---- the stages

  function AddGolden(z: bv64): bv64 { z + 0x9e3779b97f4a7c15 }
  function XorShift30(z: bv64): bv64 { z ^ (z >> 30) }
  function XorShift27(z: bv64): bv64 { z ^ (z >> 27) }
  function XorShift31(z: bv64): bv64 { z ^ (z >> 31) }
  function MulA(z: bv64): bv64 { z * 0xbf58476d1ce4e5b9 }
  function MulB(z: bv64): bv64 { z * 0x94d049bb133111eb }
  function Mul5(z: bv64): bv64 { z * 5 }
  function Mul9(z: bv64): bv64 { z * 9 }
  function RotateLeft7(z: bv64): bv64 { (z << 7) | (z >> 57) }

  function RoundA(x: bv64): bv64 { MulA(XorShift30(x)) }
  function RoundB(z: bv64): bv64 { MulB(XorShift27(z)) }

  function SplitMix64(x: bv64): bv64 {
    XorShift31(RoundB(RoundA(AddGolden(x))))
  }

  function Hash(seed: bv64): bv64 {
    var s0 := SplitMix64(seed);
    var s1 := SplitMix64(s0);
    Mul9(RotateLeft7(Mul5(s1)))
  }

  // ---- each stage undone

  function SubGolden(z: bv64): bv64 { z - 0x9e3779b97f4a7c15 }
  function UnShift30(z: bv64): bv64 { z ^ (z >> 30) ^ (z >> 60) }
  function UnShift27(z: bv64): bv64 { z ^ (z >> 27) ^ (z >> 54) }
  function UnShift31(z: bv64): bv64 { z ^ (z >> 31) ^ (z >> 62) }
  function DivA(z: bv64): bv64 { z * 0x96de1b173f119089 }
  function DivB(z: bv64): bv64 { z * 0x319642b2d24d8ec3 }
  function Div5(z: bv64): bv64 { z * 0xcccccccccccccccd }
  function Div9(z: bv64): bv64 { z * 0x8e38e38e38e38e39 }
  function RotateRight7(z: bv64): bv64 { (z >> 7) | (z << 57) }

  function UnRoundA(z: bv64): bv64 { UnShift30(DivA(z)) }
  function UnRoundB(z: bv64): bv64 { UnShift27(DivB(z)) }

  function UnSplitMix64(y: bv64): bv64 {
    SubGolden(UnRoundA(UnRoundB(UnShift31(y))))
  }

  function Unhash(h: bv64): bv64 {
    var s1 := Div5(RotateRight7(Div9(h)));
    UnSplitMix64(UnSplitMix64(s1))
  }

  lemma GoldenUndone(z: bv64)
    ensures SubGolden(AddGolden(z)) == z
  {
    assert SubGolden(z + 0x9e3779b97f4a7c15) == z;
  }

  lemma GoldenReached(z: bv64)
    ensures AddGolden(SubGolden(z)) == z
  {
    assert AddGolden(z - 0x9e3779b97f4a7c15) == z;
  }

  lemma Shift30Undone(z: bv64)
    ensures UnShift30(XorShift30(z)) == z
  {
    assert UnShift30(z ^ (z >> 30)) == z;
  }

  lemma Shift30Reached(z: bv64)
    ensures XorShift30(UnShift30(z)) == z
  {
    assert XorShift30(z ^ (z >> 30) ^ (z >> 60)) == z;
  }

  lemma Shift27Undone(z: bv64)
    ensures UnShift27(XorShift27(z)) == z
  {
    assert UnShift27(z ^ (z >> 27)) == z;
  }

  lemma Shift27Reached(z: bv64)
    ensures XorShift27(UnShift27(z)) == z
  {
    assert XorShift27(z ^ (z >> 27) ^ (z >> 54)) == z;
  }

  lemma Shift31Undone(z: bv64)
    ensures UnShift31(XorShift31(z)) == z
  {
    assert UnShift31(z ^ (z >> 31)) == z;
  }

  lemma Shift31Reached(z: bv64)
    ensures XorShift31(UnShift31(z)) == z
  {
    assert XorShift31(z ^ (z >> 31) ^ (z >> 62)) == z;
  }

  lemma MulAUndone(z: bv64)
    ensures DivA(MulA(z)) == z
  {
    assert DivA(z * 0xbf58476d1ce4e5b9) == z;
  }

  lemma MulAReached(z: bv64)
    ensures MulA(DivA(z)) == z
  {
    assert MulA(z * 0x96de1b173f119089) == z;
  }

  lemma MulBUndone(z: bv64)
    ensures DivB(MulB(z)) == z
  {
    assert DivB(z * 0x94d049bb133111eb) == z;
  }

  lemma MulBReached(z: bv64)
    ensures MulB(DivB(z)) == z
  {
    assert MulB(z * 0x319642b2d24d8ec3) == z;
  }

  lemma Mul5Undone(z: bv64)
    ensures Div5(Mul5(z)) == z
  {
    assert Div5(z * 5) == z;
  }

  lemma Mul5Reached(z: bv64)
    ensures Mul5(Div5(z)) == z
  {
    assert Mul5(z * 0xcccccccccccccccd) == z;
  }

  lemma Mul9Undone(z: bv64)
    ensures Div9(Mul9(z)) == z
  {
    assert Div9(z * 9) == z;
  }

  lemma Mul9Reached(z: bv64)
    ensures Mul9(Div9(z)) == z
  {
    assert Mul9(z * 0x8e38e38e38e38e39) == z;
  }

  lemma RotateUndone(z: bv64)
    ensures RotateRight7(RotateLeft7(z)) == z
  {
    assert RotateRight7((z << 7) | (z >> 57)) == z;
  }

  lemma RotateReached(z: bv64)
    ensures RotateLeft7(RotateRight7(z)) == z
  {
    assert RotateLeft7((z >> 7) | (z << 57)) == z;
  }

  lemma RoundAUndone(x: bv64)
    ensures UnRoundA(RoundA(x)) == x
  {
    MulAUndone(XorShift30(x));
    Shift30Undone(x);
  }

  lemma RoundAReached(z: bv64)
    ensures RoundA(UnRoundA(z)) == z
  {
    Shift30Reached(DivA(z));
    MulAReached(z);
  }

  lemma RoundBUndone(z: bv64)
    ensures UnRoundB(RoundB(z)) == z
  {
    MulBUndone(XorShift27(z));
    Shift27Undone(z);
  }

  lemma RoundBReached(z: bv64)
    ensures RoundB(UnRoundB(z)) == z
  {
    Shift27Reached(DivB(z));
    MulBReached(z);
  }

  lemma SplitMixUndone(x: bv64)
    ensures UnSplitMix64(SplitMix64(x)) == x
  {
    Shift31Undone(RoundB(RoundA(AddGolden(x))));
    RoundBUndone(RoundA(AddGolden(x)));
    RoundAUndone(AddGolden(x));
    GoldenUndone(x);
  }

  lemma SplitMixReached(y: bv64)
    ensures SplitMix64(UnSplitMix64(y)) == y
  {
    GoldenReached(UnRoundA(UnRoundB(UnShift31(y))));
    RoundAReached(UnRoundB(UnShift31(y)));
    RoundBReached(UnShift31(y));
    Shift31Reached(y);
  }

  /** Hash is a bijection on 64-bit words, with Unhash as its inverse. */
  lemma HashUndone(x: bv64)
    ensures Unhash(Hash(x)) == x
  {
    var s0 := SplitMix64(x);
    var s1 := SplitMix64(s0);
    Mul9Undone(RotateLeft7(Mul5(s1)));
    RotateUndone(Mul5(s1));
    Mul5Undone(s1);
    SplitMixUndone(s0);
    SplitMixUndone(x);
  }

  lemma HashReached(h: bv64)
    ensures Hash(Unhash(h)) == h
  {
    var r := RotateRight7(Div9(h));
    var s1 := Div5(r);
    SplitMixReached(UnSplitMix64(s1));
    SplitMixReached(s1);
    Mul5Reached(r);
    RotateReached(Div9(h));
    Mul9Reached(h);
  }

  lemma HashInjective(x: bv64, y: bv64)
    ensures Hash(x) == Hash(y) <==> x == y
  {
    HashUndone(x);
    HashUndone(y);
  }
}
