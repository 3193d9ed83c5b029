/** Shared vocabulary. */
module Common {
  datatype Option<T> = None | Some(value: T)

  type byte = x: int | 0 <= x < 256

  /** 64-bit arithmetic wraps here. */
  const WORD: nat := 0x1_0000_0000_0000_0000

  const PGSIZE: nat := 4096
}
