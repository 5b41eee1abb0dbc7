/** Integers of the width the program computes with. */
module MachineInts {
  const TWO31: nat := 0x8000_0000
  const TWO32: nat := 0x1_0000_0000
  const TWO64: nat := 0x1_0000_0000_0000_0000

  /** A 64-bit length converted to `int`: the low 32 bits, read as a signed number. */
  function ToInt32(x: nat): int {
    var low := x % TWO32;
    if low < TWO31 then low else low - TWO32
  }

  /** It is the one number of 32 bits with a sign that differs from the length by a multiple of 2^32. */
  lemma ToInt32Is(x: nat, y: int)
    ensures y == ToInt32(x) <==> -2147483648 <= y <= 2147483647 && (x - y) % 4294967296 == 0
  {
    var q := x / TWO32;
    assert x - ToInt32(x) == (if x % TWO32 < TWO31 then q else q + 1) * TWO32;
    if -2147483648 <= y <= 2147483647 && (x - y) % 4294967296 == 0 {
      assert (ToInt32(x) - y) % 4294967296 == 0;
    }
  }

  lemma Int32AtMost(x: nat)
    ensures ToInt32(x) <= x
  {}

  lemma Int32Same(x: nat)
    requires x < TWO31
    ensures ToInt32(x) == x && x % TWO32 == x
  {}

  function PowerOf10(k: nat): nat { if k == 0 then 1 else 10 * PowerOf10(k - 1) }

  function Min(a: int, b: int): int { if a < b then a else b }
}
