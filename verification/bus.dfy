/** The register port of the flash driver (flash.c `cfi_read8`, `cfi_write8`,
    `cfi_cmd`). The chip is modelled by what it presents on the bus, and the
    driver's effect on it by the trace of byte writes it issues. */
module Bus {
  import opened CInt

  /** Bus-width factors of the two probing modes. */
  const X8: nat := 1
  const X16: nat := 2

  /** Command bytes of the AMD/Fujitsu standard command set. */
  const RESET: Byte := 0xF0
  const QUERY: Byte := 0x98

  /** What the chip answers to a read: in CFI-query mode and in autoselect
      mode the answer depends only on the address; in read-array mode (status
      polling and read-back) it may change from one read to the next, so it is
      indexed by the ordinal of the read as well. */
  datatype Chip = Chip(
    query: nat -> Byte,
    autoselect: nat -> Byte,
    arrayRead: (nat, nat) -> Byte)

  /** One byte written to the bus. */
  datatype BusWrite = BusWrite(addr: nat, val: Byte)

  /** The chip, the number of array-mode reads so far, and every byte written. */
  datatype Port = Port(chip: Chip, nreads: nat, trace: seq<BusWrite>)

  function Put(p: Port, addr: nat, v: Byte): Port
  {
    p.(trace := p.trace + [BusWrite(addr, v)])
  }

  /** The byte the next array-mode read at `addr` returns, k reads ahead. */
  function Peek(p: Port, addr: nat, k: nat): Byte
  {
    p.chip.arrayRead(p.nreads + k, addr)
  }

  /** An array-mode read: returns the chip's answer and counts the read. */
  function ReadArray(p: Port, addr: nat): (Port, Byte)
  {
    (p.(nreads := p.nreads + 1), Peek(p, addr, 0))
  }

  /** The bus offset `cfi_cmd` writes a command to: the command address scaled
      by the width, with 0x554 bumped to 0x555. */
  function CmdOffset(cmdAddr: nat, width: nat): (r: nat)
    ensures r == cmdAddr * width || (cmdAddr * width == 0x554 && r == 0x555)
    ensures r != 0x554
  {
    if cmdAddr * width == 0x554 then 0x555 else cmdAddr * width
  }

  /** The single write `cfi_cmd(cmd, cmdAddr, base, width)` performs. */
  function CmdWrite(cmd: Byte, cmdAddr: nat, base: nat, width: nat): BusWrite
  {
    BusWrite(base + CmdOffset(cmdAddr, width), cmd)
  }

  function Cmd(p: Port, cmd: Byte, cmdAddr: nat, base: nat, width: nat): Port
  {
    p.(trace := p.trace + [CmdWrite(cmd, cmdAddr, base, width)])
  }

  /** The reset-to-read-array command at offset 0. */
  function ResetWrite(base: nat): BusWrite
  {
    CmdWrite(RESET, 0, base, X8)
  }
}
