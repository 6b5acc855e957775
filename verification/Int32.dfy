/** Go's int32: every operation wraps around modulo two to the thirty-second. */
module Int32 {
  const MAX_INT32 := 0x7fff_ffff

  predicate InRange(x: int) {
    -0x8000_0000 <= x <= MAX_INT32
  }

  /** The int32 value of the mathematical integer x. */
  function Wrap(x: int): (r: int)
    ensures InRange(r) && (r - x) % 0x1_0000_0000 == 0
    ensures InRange(x) ==> r == x
  {
    (x + 0x8000_0000) % 0x1_0000_0000 - 0x8000_0000
  }

  /** A sum of two non-negative int32 values overflowed exactly when its wrapped value is negative. */
  lemma SignTestIsExact(a: int, b: int)
    requires 0 <= a <= MAX_INT32 && 0 <= b <= MAX_INT32
    ensures Wrap(a + b) < 0 <==> a + b > MAX_INT32
  {
    if a + b > MAX_INT32 {
      assert (a + b + 0x8000_0000) % 0x1_0000_0000 == a + b + 0x8000_0000 - 0x1_0000_0000;
    }
  }
}
