/** The processor registers and the TSS field that the kernel sets. */
module Processor {
  import opened Bits

  const PG := 0x8000_0000  // the paging bit of CR0

  class Cpu {
    var cr0: u32
    var cr3: u32
    var esp0: u32  // ktss.esp0

    constructor (cr0: u32)
      ensures this.cr0 == cr0 && cr3 == 0 && esp0 == 0
    {
      this.cr0, cr3, esp0 := cr0, 0, 0;
    }
  }
}
