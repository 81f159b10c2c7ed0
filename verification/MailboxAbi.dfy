/** The mailbox ABI: machine words, packets, and the constants they carry. */
module MailboxAbi {
  import opened Prelude

  const W64: int := 0x1_0000_0000_0000_0000

  type u32 = x: int | 0 <= x < 0x1_0000_0000
  type u64 = x: int | 0 <= x < 0x1_0000_0000_0000_0000

  const NEVER: u64 := 0xFFFF_FFFF_FFFF_FFFF

  function Add64(a: u64, b: u64): u64 { (a + b) % W64 }
  function Sub64(a: u64, b: u64): u64 { (a - b) % W64 }
  function Mul64(a: u64, b: u64): u64 { (a * b) % W64 }

  function FromWords(lo: u32, hi: u32): u64 { hi * W32 + lo }
  function Lo(v: u64): u32 { v % W32 }
  function Hi(v: u64): u32 { v / W32 }

  /** Splitting a 64-bit value and joining two words undo each other. */
  lemma WordsRoundTrip(v: u64, lo: u32, hi: u32)
    ensures FromWords(Lo(v), Hi(v)) == v
    ensures Lo(FromWords(lo, hi)) == lo && Hi(FromWords(lo, hi)) == hi
  {
  }

  const ABI_VERSION: u32 := 1
  const COMMAND_WORDS: u32 := 16
  const RESPONSE_WORDS: u32 := 12
  const EVENT_WORDS: u32 := 12

  const OP_NOP: u32 := 0
  const OP_READ_REG: u32 := 1
  const OP_WRITE_REG: u32 := 2
  const OP_READ_MEM: u32 := 3
  const OP_WRITE_MEM: u32 := 4
  const OP_RUN_CYCLES: u32 := 5
  const OP_RUN_UNTIL_EVENT: u32 := 6
  const OP_GET_STOP_REASON: u32 := 7
  const OP_SET_BREAKPOINT: u32 := 8
  const OP_CLEAR_BREAKPOINT: u32 := 9
  const OP_SET_WATCHPOINT: u32 := 10
  const OP_CLEAR_WATCHPOINT: u32 := 11

  const STATUS_OK: u32 := 0
  const STATUS_BAD_ADDR: u32 := 2
  const STATUS_FAULT: u32 := 4
  const STATUS_TIMEOUT: u32 := 5
  const STATUS_UNSUPPORTED: u32 := 7

  const EVENT_NONE: u32 := 0
  const EVENT_STOP: u32 := 1
  const EVENT_BREAKPOINT: u32 := 2
  const EVENT_WATCHPOINT: u32 := 3
  const EVENT_FAULT: u32 := 4

  const STOP_NONE: u32 := 0
  const STOP_RUN_CYCLES_DONE: u32 := 1
  const STOP_EPOCH_LIMIT: u32 := 2
  const STOP_BREAKPOINT_HIT: u32 := 3
  const STOP_WATCHPOINT_HIT: u32 := 4
  const STOP_EXTERNAL_STOP: u32 := 5
  const STOP_FAULT: u32 := 6
  const STOP_TIMEOUT: u32 := 7

  const ADDR_NONE: u32 := 0
  const ADDR_REG_GPR: u32 := 1
  const ADDR_REG_CSR: u32 := 2
  const ADDR_REG_DEBUG: u32 := 3
  const ADDR_MEM_PHYS: u32 := 16
  const ADDR_MEM_DCCM: u32 := 17
  const ADDR_MEM_ICCM: u32 := 18
  const ADDR_MEM_MMIO: u32 := 19

  const DEBUG_REG_PC: u64 := 0

  datatype Command = Command(
    opcode: u32, flags: u32, requestId: u32, addrSpace: u32, addrLo: u32, addrHi: u32, sizeBytes: u32,
    arg0: u32, arg1: u32, payloadOffset: u32, payloadSize: u32,
    reserved0: u32, reserved1: u32, reserved2: u32, reserved3: u32, reserved4: u32)

  datatype Response = Response(
    requestId: u32, status: u32, sizeBytes: u32, arg0: u32, arg1: u32, payloadOffset: u32, payloadSize: u32,
    reserved0: u32, reserved1: u32, reserved2: u32, reserved3: u32, reserved4: u32)

  datatype Event = Event(
    eventType: u32, stopReason: u32, cycleLo: u32, cycleHi: u32, pcLo: u32, pcHi: u32, arg0: u32, arg1: u32,
    reserved0: u32, reserved1: u32, reserved2: u32, reserved3: u32)

  const NO_RESPONSE := Response(0, 0, 0, 0, 0, 0, 0, 0, 0, 0, 0, 0)
  const NO_EVENT := Event(0, 0, 0, 0, 0, 0, 0, 0, 0, 0, 0, 0)

  const FAULT_NONE: u32 := 0
  const FAULT_COMMUNICATION: u32 := 2
  const STAGE_NONE: u32 := 0
  const STAGE_D2H: u32 := 4
  const STAGE_RUNTIME: u32 := 6

  datatype Fault = Fault(kind: u32, stage: u32, code: u32, aux0: u32, value0: u64, value1: u64)

  const NO_FAULT := Fault(0, 0, 0, 0, 0, 0)

  function CommunicationFault(stage: u32, code: u32, aux0: u32, value0: u64, value1: u64): Fault {
    Fault(FAULT_COMMUNICATION, stage, code, aux0, value0, value1)
  }
}
