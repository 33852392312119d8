/** The fixed-width C integers that the scheduler mixes: int, unsigned int and unsigned long. */
module CInts {
  const TWO_31: int := 0x8000_0000
  const TWO_32: int := 0x1_0000_0000
  const TWO_64: int := 0x1_0000_0000_0000_0000

  predicate IsInt32(x: int) { -TWO_31 <= x < TWO_31 }
  predicate IsUint32(x: int) { 0 <= x < TWO_32 }
  predicate IsUint64(x: int) { 0 <= x < TWO_64 }

  /** Conversion to unsigned int. */
  function ToUint32(x: int): int { x % TWO_32 }

  /** Conversion to unsigned long. */
  function ToUint64(x: int): int { x % TWO_64 }

  /** Conversion to int, which keeps the low 32 bits. */
  function ToInt32(x: int): int {
    var u := x % TWO_32;
    if u < TWO_31 then u else u - TWO_32
  }

  /** Storing a small value in an unsigned long and narrowing it to int gives it back. */
  lemma NarrowingUndoesWrapping(x: int)
    requires IsInt32(x)
    ensures ToInt32(ToUint64(x)) == x
    ensures 0 <= x ==> ToUint64(x) == x
    ensures x < 0 ==> ToUint64(x) >= TWO_64 - TWO_31
  {
    if x < 0 {
      assert ToUint64(x) == x + TWO_64;
      assert x + TWO_64 == (x + TWO_32) + 0xFFFF_FFFF * TWO_32;
    }
  }

  /** Wrapping in the middle of a sum or a difference changes nothing. */
  lemma WrapThenAdd(x: int, d: int)
    ensures ToInt32(ToInt32(x) + d) == ToInt32(x + d)
    ensures ToUint64(ToUint64(x) + d) == ToUint64(x + d)
  {
    var k := if x % TWO_32 < TWO_31 then x / TWO_32 else x / TWO_32 + 1;
    assert ToInt32(x) == x - k * TWO_32;
    assert (x + d - k * TWO_32) % TWO_32 == (x + d) % TWO_32;
    assert (x + d - (x / TWO_64) * TWO_64) % TWO_64 == (x + d) % TWO_64;
  }
}
