/** Words, process ids and error results shared by the kernel modules. */
module Kernel {

  const U32_RANGE: int := 0x1_0000_0000
  const U64_RANGE: int := 0x1_0000_0000_0000_0000

  type Byte = b: int | 0 <= b < 256
  type Word32 = w: int | 0 <= w < 0x1_0000_0000

  /** A process id never equals the `(u32)-1` that marks a free pipe slot. */
  type Pid = p: int | 0 <= p < 0xFFFF_FFFF
  const NO_PID: Word32 := 0xFFFF_FFFF

  const MAX_PROCESSES: nat := 7

  const O_READ: nat := 1
  const O_WRITE: nat := 2

  datatype Option<+T> = None | Some(value: T) {
    predicate IsFailure() { None? }
    function PropagateFailure<U>(): Option<U> requires None? { None }
    function Extract(): T requires Some? { value }
  }

  /** The negative error codes of entry.h. */
  datatype Errno = EINVAL | EACCES | ENOMEM | EOTHERS
  datatype Result<+T> = Ok(value: T) | Err(errno: Errno)

  /** `mode & O_READ` */
  predicate CanRead(mode: nat) { mode % 2 == 1 }

  /** `mode & O_WRITE` */
  predicate CanWrite(mode: nat) { mode / 2 % 2 == 1 }

  /** The value an `int` takes when the compiler converts it to `u32` for a comparison. */
  function AsU32(x: int): Word32 { x % 0x1_0000_0000 }

  function Min(a: int, b: int): int { if a <= b then a else b }
}
