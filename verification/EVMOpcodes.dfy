/** The opcode descriptor the analyser works with. The table that maps a byte
    to its descriptor is not part of this model; `WellFormed` states the shape
    every entry of that table has (Appendix H of the Ethereum Yellow Paper). */
module EVMOpcodes {

  import opened EVMConstants

  predicate IsPushCode(b: nat) { PUSH0 <= b <= PUSH32 }
  predicate IsDupCode(b: nat) { DUP1 <= b <= DUP16 }
  predicate IsSwapCode(b: nat) { SWAP1 <= b <= SWAP16 }

  /** One variant per opcode class; every variant carries the name, the
      numeric code, the capacity and operand lower bounds, and the number of
      stack slots the opcode pushes and pops. */
  datatype Opcode =
    | ArithOp(name: string, opcode: nat, minCapacity: nat, minOperands: nat, pushes: nat, pops: nat)
    | CompOp(name: string, opcode: nat, minCapacity: nat, minOperands: nat, pushes: nat, pops: nat)
    | BitwiseOp(name: string, opcode: nat, minCapacity: nat, minOperands: nat, pushes: nat, pops: nat)
    | KeccakOp(name: string, opcode: nat, minCapacity: nat, minOperands: nat, pushes: nat, pops: nat)
    | EnvOp(name: string, opcode: nat, minCapacity: nat, minOperands: nat, pushes: nat, pops: nat)
    | MemOp(name: string, opcode: nat, minCapacity: nat, minOperands: nat, pushes: nat, pops: nat)
    | StorageOp(name: string, opcode: nat, minCapacity: nat, minOperands: nat, pushes: nat, pops: nat)
    | JumpOp(name: string, opcode: nat, minCapacity: nat, minOperands: nat, pushes: nat, pops: nat)
    | RunOp(name: string, opcode: nat, minCapacity: nat, minOperands: nat, pushes: nat, pops: nat)
    | StackOp(name: string, opcode: nat, minCapacity: nat, minOperands: nat, pushes: nat, pops: nat)
    | LogOp(name: string, opcode: nat, minCapacity: nat, minOperands: nat, pushes: nat, pops: nat)
    | SysOp(name: string, opcode: nat, minCapacity: nat, minOperands: nat, pushes: nat, pops: nat)
  {
    /** Net change of the stack size. */
    function StackEffect(): int { pushes - pops }

    predicate IsJumpDest() { opcode == JUMPDEST }

    /** The shape of an entry of the opcode table: a byte-sized code, the
        PUSH/DUP/SWAP/POP codes in the stack class, the jump codes in the jump
        class, and the arities the classes have in the Yellow Paper (one
        result for arithmetic, comparison and bitwise operators; KECCAK256
        hashes two operands into one word; environment operators either
        return nothing or read at most one operand; memory and storage
        operators are loads (1 -> 1) or stores (2 -> 0); the jumps return
        nothing and pop their target and condition; the run-time operators
        PC, MSIZE and GAS read nothing and return one word; DUPn reads n
        slots and writes n+1, SWAPn reads and writes n+1; LOGn returns
        nothing; system operators return at most one word). */
    predicate WellFormed()
    {
      && opcode < 256
      && (IsPushCode(opcode) || IsDupCode(opcode) || IsSwapCode(opcode) || opcode == POP ==> StackOp?)
      && (opcode == JUMP || opcode == JUMPI || opcode == JUMPDEST ==> JumpOp?)
      && match this
         case ArithOp(_, _, _, _, _, _) => pushes == 1 && pops >= 1
         case CompOp(_, _, _, _, _, _) => pushes == 1 && pops >= 1
         case BitwiseOp(_, _, _, _, _, _) => pushes == 1 && pops >= 1
         case KeccakOp(_, _, _, _, _, _) => pushes == 1 && pops == 2
         case EnvOp(_, _, _, _, _, _) => pushes == 0 || (pushes == 1 && pops <= 1)
         case MemOp(_, _, _, _, _, _) => (pushes == 0 && pops == 2) || (pushes == 1 && pops == 1)
         case StorageOp(_, _, _, _, _, _) => (pushes == 0 && pops == 2) || (pushes == 1 && pops == 1)
         case JumpOp(_, _, _, _, _, _) =>
           && pushes == 0
           && (opcode == JUMPDEST ==> pops == 0)
           && (opcode == JUMP ==> pops == 1)
           && (opcode == JUMPI ==> pops == 2)
         case RunOp(_, _, _, _, _, _) => pushes == 1 && pops == 0
         case StackOp(_, _, _, _, _, _) =>
           && (opcode == POP ==> pushes == 0 && pops == 1)
           && (IsPushCode(opcode) ==> pushes == 1 && pops == 0)
           && (IsDupCode(opcode) ==> pops == opcode - DUP1 + 1 && pushes == pops + 1)
           && (IsSwapCode(opcode) ==> pops == opcode - SWAP1 + 2 && pushes == pops)
         case LogOp(_, _, _, _, _, _) => pushes == 0
         case SysOp(_, _, _, _, _, _) => pushes <= 1
    }
  }
}
