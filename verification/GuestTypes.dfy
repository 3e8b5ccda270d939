/** The guest machine's scalar types and the physical-address fold every component shares. */
module GuestTypes {

  /** An unsigned 32-bit guest word or address. */
  type Word = w: int | 0 <= w < 0x1_0000_0000

  type Byte = b: int | 0 <= b < 0x100

  datatype Option<+T> = None | Some(value: T)

  // KUSEG, KSEG0 and KSEG1 name one 29-bit physical space.
  const PHYSICAL_SPACE: Word := 0x2000_0000

  const MAIN_RAM_BYTES: Word := 0x20_0000
  const RAM_MIRROR_SPAN: Word := 0x80_0000
  const SCRATCHPAD_BASE: Word := 0x1F80_0000
  const SCRATCHPAD_BYTES: Word := 0x400

  function Physical(address: Word): Word {
    address % 0x2000_0000
  }

  /** A half-open range of guest addresses; only a range with begin < end holds any byte. */
  datatype Range = Range(begin: Word, end: Word) {
    predicate Valid() {
      begin < end
    }

    /** Valid and inside the physical space, the only ranges the catalog resolves or subtracts. */
    predicate InPhysicalSpace() {
      begin < end <= PHYSICAL_SPACE
    }

    predicate Contains(p: int) {
      begin <= p < end
    }
  }

  datatype ExitReason =
    | GuestReturn
    | BudgetExhausted
    | HostService
    | InterruptOrException
    | FrameBoundary
    | CooperativeYield
    | ProcessExit
    | Fault

  /** What one executor call may spend. */
  datatype Budget = Budget(cycles: nat, maxHostDispatches: nat)

  datatype ExecutionResult = ExecutionResult(reason: ExitReason, guestPc: Word, cycles: nat) {
    predicate Returned() {
      reason == GuestReturn
    }
  }
}
