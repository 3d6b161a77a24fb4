/** The address constants of syscalls.h and the layout they give a process slot. */
module Layout {
  const MAX_PROCESSES: nat := 6
  const TERM_SIZE: nat := 3
  const MAX_FILES: nat := 8

  const KERNEL_BASE := 0x80_0000
  const PCB_OFFSET := 0x2000
  const USER_MEM_P := 0x80_0000
  const USER_PROG_SIZE := 0x40_0000
  const USER_PAGE_SET_BITS := 0x87

  /** Where the control block of a slot starts: the bottom of its 8 KiB stack region. */
  function PcbAddress(slot: nat): int {
    KERNEL_BASE - (slot + 1) * PCB_OFFSET
  }

  /** The initial kernel stack pointer of a slot. */
  function KernelStack(slot: nat): int {
    KERNEL_BASE - slot * PCB_OFFSET - 4
  }

  /** The physical 4 MiB frame of a slot. */
  function Frame(slot: nat): int {
    USER_MEM_P + slot * USER_PROG_SIZE
  }

  /** The page-directory entry for a frame. Frames are 4 MiB aligned, so or-ing the flag bits adds them. */
  function PageEntry(frame: int): int {
    frame + USER_PAGE_SET_BITS
  }

  /** Distinct slots share neither user memory nor kernel stack, and a stack grows towards its own block only. */
  lemma SlotsNeverOverlap(a: nat, b: nat)
    requires a < b < MAX_PROCESSES
    ensures Frame(a) + USER_PROG_SIZE <= Frame(b)
    ensures PcbAddress(b) + PCB_OFFSET <= PcbAddress(a)
    ensures PcbAddress(a) < KernelStack(a) < PcbAddress(a) + PCB_OFFSET
    ensures PageEntry(Frame(a)) != PageEntry(Frame(b)) && KernelStack(a) != KernelStack(b)
  {
  }
}
