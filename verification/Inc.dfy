// Constants and codes the kernel and its user programs share (inc/env.h, inc/error.h,
// inc/memlayout.h, inc/mmu.h).
module Inc {

  const PGSIZE := 4096

  // Arithmetic on addresses is modulo this.
  const WORD := 0x1_0000_0000

  const UTOP := 0xee80_0000
  const UXSTACKTOP := UTOP
  const USTACKTOP := UTOP - 2 * PGSIZE
  const UTEMP := 0x40_0000

  const NENV := 1024

  datatype Status = Free | Dying | Runnable | Running | NotRunnable

  const E_BAD_ENV := 2
  const E_INVAL := 3
  const E_NO_MEM := 4
  const E_FAULT := 6
  const E_IPC_NOT_RECV := 7
  const E_NO_DISK := 9
  const E_NOT_FOUND := 11

  // No slot, frame, environment or header.
  const NULL := -1
}
