/** Rust's `u32`: the type of the secret, the attempt counter and every parsed guess. */
module UInt32 {
  const MAX: int := 0xFFFF_FFFF

  type u32 = x: int | 0 <= x <= MAX
}
