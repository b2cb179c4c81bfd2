/** The configuration-register names of the 7-series packet format and the
    SPI read opcodes that explorebits.py recognises in a BSPI write. */
module Registers {
  import opened Wrappers

  /** The configuration registers by name, and the name `decode_reg` gives
      every other code. */
  datatype RegName =
    | CRC | FAR | FDRI | FDRO | CMD | CTL0 | MASK | STAT | LOUT | COR0 | MFWR
    | CBC | IDCODE | AXSS | COR1 | WBSTAR | TIMER | BOOTSTS | CTL1 | CIPHERTEXT
    | BSPI | UNKNOWN

  /** The register address table of explorebits.py, the codes `decode_reg`
      names. */
  const RegisterTable: map<nat, RegName> := map[
    0 := CRC, 1 := FAR, 2 := FDRI, 3 := FDRO, 4 := CMD, 5 := CTL0,
    6 := MASK, 7 := STAT, 8 := LOUT, 9 := COR0, 10 := MFWR, 11 := CBC,
    12 := IDCODE, 13 := AXSS, 14 := COR1, 16 := WBSTAR, 17 := TIMER,
    22 := BOOTSTS, 24 := CTL1, 26 := CIPHERTEXT, 31 := BSPI]

  const KnownCodes: set<nat> := {0, 1, 2, 3, 4, 5, 6, 7, 8, 9, 10, 11, 12, 13, 14, 16, 17, 22, 24, 26, 31}

  const CIPHERTEXT_CODE: nat := 0x1A
  const BSPI_CODE: nat := 0x1F

  /** `decode_reg`: the name of a register field, UNKNOWN for any code
      outside the table (every code of 32 or more among them). */
  function DecodeReg(cmd: nat): (name: RegName)
    ensures name != UNKNOWN <==> cmd in KnownCodes
    ensures name == CIPHERTEXT <==> cmd == CIPHERTEXT_CODE
    ensures name == BSPI <==> cmd == BSPI_CODE
  {
    if cmd == 0x00 then CRC
    else if cmd == 0x01 then FAR
    else if cmd == 0x02 then FDRI
    else if cmd == 0x03 then FDRO
    else if cmd == 0x04 then CMD
    else if cmd == 0x05 then CTL0
    else if cmd == 0x06 then MASK
    else if cmd == 0x07 then STAT
    else if cmd == 0x08 then LOUT
    else if cmd == 0x09 then COR0
    else if cmd == 0x0A then MFWR
    else if cmd == 0x0B then CBC
    else if cmd == 0x0C then IDCODE
    else if cmd == 0x0D then AXSS
    else if cmd == 0x0E then COR1
    else if cmd == 0x10 then WBSTAR
    else if cmd == 0x11 then TIMER
    else if cmd == 0x16 then BOOTSTS
    else if cmd == 0x18 then CTL1
    else if cmd == 0x1A then CIPHERTEXT
    else if cmd == 0x1F then BSPI
    else UNKNOWN
  }

  /** `decode_reg` agrees with the script's register table. */
  lemma DecodeRegTable(cmd: nat)
    ensures DecodeReg(cmd) == (if cmd in RegisterTable then RegisterTable[cmd] else UNKNOWN)
  {
  }

  const BspiOpcodes: set<int> := {0x0B, 0x3B, 0x6B, 0x0C, 0x3C, 0x6C}

  /** The SPI flash read commands a BSPI write can select. */
  datatype ReadMode =
    | FastReadX1 | DualOutputFastRead | QuadOutputFastRead
    | FastRead32 | DualOutputFastRead32 | QuadOutputFastRead32

  /** The read mode each SPI read opcode selects. */
  const BspiTable: map<int, ReadMode> := map[
    0x0B := FastReadX1, 0x3B := DualOutputFastRead, 0x6B := QuadOutputFastRead,
    0x0C := FastRead32, 0x3C := DualOutputFastRead32, 0x6C := QuadOutputFastRead32]

  /** The annotation printed after a BSPI packet whose last payload word is
      an SPI read opcode; no annotation for any other value. */
  function BspiMode(data: int): (mode: Option<ReadMode>)
    ensures mode.Some? <==> data in BspiOpcodes
    ensures mode == (if data in BspiTable then Some(BspiTable[data]) else None)
  {
    if data == 0x0B then Some(FastReadX1)
    else if data == 0x3B then Some(DualOutputFastRead)
    else if data == 0x6B then Some(QuadOutputFastRead)
    else if data == 0x0C then Some(FastRead32)
    else if data == 0x3C then Some(DualOutputFastRead32)
    else if data == 0x6C then Some(QuadOutputFastRead32)
    else None
  }
}
