// Machine words shared by the modules of the model.
module Words {
  const TWO28: nat := 0x1000_0000
  const TWO32: nat := 0x1_0000_0000
  const TWO64: nat := 0x1_0000_0000_0000_0000

  type U8 = x: int | 0 <= x < 0x100
  type U16 = x: int | 0 <= x < 0x1_0000
  type U32 = x: int | 0 <= x < 0x1_0000_0000
  type U64 = x: int | 0 <= x < 0x1_0000_0000_0000_0000

  datatype Option<T> = None | Some(value: T)

  // Unsigned 32-bit wrap-around of any integer.
  function Wrap32(x: int): U32 {
    x % TWO32
  }

  function Min(a: int, b: int): int {
    if a <= b then a else b
  }

  predicate WordAligned(a: int) {
    a % 4 == 0
  }

  lemma RemainderUnique(q: int, n: nat, r: nat)
    requires r < n
    ensures (q * n + r) % n == r
  {
    var x := q * n + r;
    var d := q - x / n;
    assert x == x / n * n + x % n;
    assert d * n == x % n - r;
    assert d >= 1 ==> d * n >= n;
    assert d <= -1 ==> d * n + n <= 0;
  }
}
