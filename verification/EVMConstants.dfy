/** Numeric opcodes used by the analyser, as listed in Appendix H of the
    Ethereum Yellow Paper (PUSH0 = 0x5f is from EIP-3855). Only the codes the
    modelled logic names are declared. */
module EVMConstants {

  const STOP: nat := 0x00
  const ADD: nat := 0x01
  const ADDMOD: nat := 0x08
  const POP: nat := 0x50
  const JUMP: nat := 0x56
  const JUMPI: nat := 0x57
  const JUMPDEST: nat := 0x5b
  const PUSH0: nat := 0x5f
  const PUSH1: nat := 0x60
  const PUSH32: nat := 0x7f
  const DUP1: nat := 0x80
  const DUP16: nat := 0x8f
  const SWAP1: nat := 0x90
  const SWAP16: nat := 0x9f
  const CREATE: nat := 0xf0
  const CALL: nat := 0xf1
  const RETURN: nat := 0xf3
  const REVERT: nat := 0xfd
  const INVALID: nat := 0xfe
}
