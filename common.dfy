/** Machine-level vocabulary shared by the shadow allocator and the flex test sources. */
module Common {

  datatype Option<T> = None | Some(value: T)

  /** `usize::MAX` on a 64-bit target. */
  const USIZE_MAX: nat := 0xFFFF_FFFF_FFFF_FFFF

  type usize = x: nat | x <= USIZE_MAX

  type byte = x: nat | x < 0x100

  /** `n` is 1, 2, 4, 8, ... */
  predicate IsPowerOfTwo(n: nat)
    decreases n
  {
    n == 1 || (n > 1 && n % 2 == 0 && IsPowerOfTwo(n / 2))
  }

  /**
   * `std::alloc::Layout`: a size and an alignment. The alignment is a power of
   * two only where a member's precondition says so (`IsPowerOfTwo(align)`);
   * the type itself does not enforce it.
   */
  datatype Layout = Layout(size: nat, align: nat)
}
