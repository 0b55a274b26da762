/** The registers of a user context (struct intr_frame) that loading a process sets. */
module Cpu {
  class IntrFrame {
    /** Stack pointer, instruction pointer, and the first two argument registers. */
    var rsp: int
    var rip: int
    var rdi: int
    var rsi: int

    constructor ()
      ensures rsp == 0 && rip == 0 && rdi == 0 && rsi == 0
    {
      rsp, rip, rdi, rsi := 0, 0, 0, 0;
    }
  }
}
