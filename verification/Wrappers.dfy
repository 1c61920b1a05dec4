/** Option, bytes and 64-bit numbers, shared by the other modules. */
module Wrappers {
  datatype Option<+T> = None | Some(value: T)

  type Byte = b: int | 0 <= b < 256

  const TWO_TO_THE_64: nat := 0x1_0000_0000_0000_0000

  type U64 = x: nat | x < TWO_TO_THE_64

  type I64 = x: int | -0x8000_0000_0000_0000 <= x < 0x8000_0000_0000_0000

  ghost predicate NoDup<T>(s: seq<T>) {
    forall i, j :: 0 <= i < j < |s| ==> s[i] != s[j]
  }

  function Min(a: int, b: int): (m: int)
    ensures m <= a && m <= b && (m == a || m == b)
  {
    if a < b then a else b
  }

  function Max(a: int, b: int): (m: int)
    ensures m >= a && m >= b && (m == a || m == b)
  {
    if a > b then a else b
  }

  /** Conversion between signed and unsigned words, in two's complement. */
  function Unsigned(i: I64): U64 {
    if i < 0 then i + TWO_TO_THE_64 else i
  }

  function Signed(u: U64): I64 {
    if u < 0x8000_0000_0000_0000 then u else u - TWO_TO_THE_64
  }

  function ToBits(x: U64): bv64 {
    x as bv64
  }

  function ToWord(b: bv64): U64 {
    b as nat
  }

  lemma WordRoundTrip(x: U64)
    ensures ToWord(ToBits(x)) == x
  {
    assert x == x % TWO_TO_THE_64;
  }

  lemma BitsRoundTrip(b: bv64)
    ensures ToBits(ToWord(b)) == b
  {}

  lemma BitsInjective(x: U64, y: U64)
    ensures ToBits(x) == ToBits(y) ==> x == y
  {
    hide ToWord, ToBits;
    WordRoundTrip(x);
    WordRoundTrip(y);
  }

  lemma WordInjective(a: bv64, b: bv64)
    ensures ToWord(a) == ToWord(b) ==> a == b
  {
    hide ToWord, ToBits;
    BitsRoundTrip(a);
    BitsRoundTrip(b);
  }
}
