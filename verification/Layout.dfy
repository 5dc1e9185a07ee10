/** The fixed places of a user address space, and the bounds each task keeps about its own. */
module Layout {

  const USER_SPACE_LIMIT: nat := 0x8000_0000_0000
  const USER_MIN_ADDR: nat := 0x1000
  const USER_STACK_TOP: nat := 0x7FFF_FFFF_F000
  const USER_STACK_PAGES: nat := 4
  const USER_STACK_MAX_PAGES: nat := 256
  const USER_FB_VIRT: nat := 0x7FFF_0000_0000
  const USER_SIGTRAMP_VIRT: nat := 0x7FFE_0000_0000
  const USER_IMAGE_LIMIT: nat := USER_SIGTRAMP_VIRT
  const USER_HEAP_MAX: nat := 0x1000_0000

  datatype Mm = Mm(codeStart: nat, codeEnd: nat, dataStart: nat, dataEnd: nat,
                   brkStart: nat, brk: nat, stackStart: nat, stackLimit: nat)

  const EMPTY_MM: Mm := Mm(0, 0, 0, 0, 0, 0, 0, 0)

  // The number of the first page at or after address x.
  function PageUp(x: nat): nat {
    (x + 4095) / 4096
  }
}
