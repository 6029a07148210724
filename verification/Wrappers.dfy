/** Shared result types and machine constants. */
module Wrappers {

  datatype Option<+T> = None | Some(value: T)

  /** How a call that may end in `kernel_panic` finishes: the panic never returns, so
      `Panicked` stands for a run that stops here. */
  datatype Outcome<+T> = Panicked | Returned(value: T)

  const PAGE_SIZE: nat := 4096

  /** `ALIGN_UP(x, a)` for a power of two `a` and `x + a - 1` below 2^64. */
  function AlignUp(x: nat, a: nat): nat
    requires 0 < a
  {
    (x + a - 1) / a * a
  }
}
