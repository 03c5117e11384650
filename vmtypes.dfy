/** Machine constants, address types and error codes shared by the dumbvm
    model (the MIPS port of OS/161, 32-bit addresses, 4 KiB pages). */
module VmTypes {

  /** Size of one page and of one physical frame. */
  const PAGE_SIZE: int := 4096

  /** Every address in this machine is an unsigned 32-bit word. */
  const WORD: int := 0x1_0000_0000

  /** Under dumbvm every user stack is 12 pages (48 KiB). */
  const DUMBVM_STACKPAGES: int := 12

  /** Top of the user address space; the stack grows down from here. */
  const USERSTACK: int := 0x8000_0000

  /** Number of hardware TLB slots. */
  const NUM_TLB: int := 64

  /** Fault kinds handed to the fault handler by the trap code. */
  const VM_FAULT_READ: int := 0
  const VM_FAULT_WRITE: int := 1
  const VM_FAULT_READONLY: int := 2

  /** A physical address (`paddr_t`). */
  newtype Paddr = x: int | 0 <= x < 0x1_0000_0000

  /** One byte of physical memory. */
  newtype byte = x: int | 0 <= x < 256

  /** The contents of one frame. */
  type Page = seq<byte>

  /** A page that holds only zero bytes. */
  predicate IsZeroPage(p: Page)
  {
    |p| == PAGE_SIZE && forall k :: 0 <= k < |p| ==> p[k] == 0
  }

  /** The contents `bzero` leaves in a frame. */
  function ZeroPage(): (p: Page)
    ensures IsZeroPage(p)
  {
    seq(PAGE_SIZE, _ => 0)
  }

  datatype Option<T> = None | Some(value: T)

  /** The kernel error numbers this subsystem returns. */
  datatype Errno = EUNIMP | ENOMEM | EFAULT | EINVAL | EROFS

  /** The `int` result of a kernel call: 0, or an error number. */
  datatype Status = Ok | Err(code: Errno)

  /** `x & PAGE_FRAME` on a 32-bit word: clear the offset within the page. */
  function PageFrame(x: int): (r: int)
    requires 0 <= x < WORD
    ensures 0 <= r <= x && r % PAGE_SIZE == 0
    ensures x - r < PAGE_SIZE
  {
    x - x % PAGE_SIZE
  }

  /** Reduction of an unsigned 32-bit sum. */
  function Wrap32(x: int): int
  {
    x % WORD
  }
}
