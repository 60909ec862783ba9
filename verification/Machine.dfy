/** Machine integers: a Rust or Move `u64` and a byte. */
module Machine {
  const TWO64: nat := 0x1_0000_0000_0000_0000

  type u64 = n: int | 0 <= n < TWO64

  newtype byte = n: int | 0 <= n < 256

  // `+=` on a u64 in a release build.
  function WrapAdd(a: u64, b: u64): u64 {
    (a + b) % TWO64
  }

  // `-` on a u64 in a release build.
  function WrapSub(a: u64, b: u64): u64 {
    (a - b) % TWO64
  }
}
