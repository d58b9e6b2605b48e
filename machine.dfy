/** Machine-level vocabulary shared by every component of the kernel model:
    bytes, 64-bit machine words, the page size, and the Option/Result
    wrappers used where the Rust code calls `unwrap()`. */
module Machine {

  /** An unsigned 8-bit value (`u8`). */
  newtype byte = x: int | 0 <= x < 0x100

  /** The largest `usize` value. */
  const USIZE_MAX: int := 0xFFFF_FFFF_FFFF_FFFF

  /** An unsigned 64-bit machine word (`usize` on LoongArch64). */
  newtype u64 = x: int | 0 <= x <= USIZE_MAX

  /** The largest `isize` value: the bound on the byte size of a Rust allocation. */
  const ISIZE_MAX: int := 0x7FFF_FFFF_FFFF_FFFF

  /** ostd's base page size (4 KiB). */
  const PAGE_SIZE: nat := 4096

  datatype Option<T> = None | Some(value: T)

  datatype Result<T, E> = Ok(value: T) | Err(error: E)
}
