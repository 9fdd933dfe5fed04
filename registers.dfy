/** Kernel error numbers returned (negated) by the driver. */
module Errno {
  const EIO: int := 5
  const ENOMEM: int := 12
  const EINVAL: int := 22
}

/** The register block of the STM32 I2C controller as the driver sees it:
    offsets from the controller base, the bit masks it uses, and a value-level
    picture of the hardware.  A `Hw` value is the register file (the last value
    written to each register), the ordered trace of every register access, and
    the values the hardware will return on the next reads of the status
    register SR1 and of the data register DR. */
module I2cRegisters {

  type Word = bv32
  type Byte = bv8

  /** An unsigned 32-bit integer, as C's `unsigned int` and `uint32_t`. */
  type u32 = x: nat | x < 0x1_0000_0000

  // Register offsets from the controller base.
  const CR1: nat := 0x00
  const CR2: nat := 0x04
  const OAR1: nat := 0x08
  const OAR2: nat := 0x0c
  const DR: nat := 0x10
  const SR1: nat := 0x14
  const SR2: nat := 0x18
  const CCR: nat := 0x1c
  const TRISE: nat := 0x20
  const FLTR: nat := 0x24

  // CR1: peripheral enable, start and stop generation.
  const Cr1Pe: Word := 1 << 0
  const Cr1Start: Word := 1 << 8
  const Cr1Stop: Word := 1 << 9

  // CR2: error and event interrupt enables.
  const Cr2Iterren: Word := 1 << 8
  const Cr2Itevten: Word := 1 << 9

  // SR1: protocol events and error flags.
  const Sr1Sb: Word := 1 << 0
  const Sr1Addr: Word := 1 << 1
  const Sr1Btf: Word := 1 << 2
  const Sr1Rxe: Word := 1 << 6
  const Sr1Txe: Word := 1 << 7
  const Sr1Berr: Word := 1 << 8
  const Sr1Arlo: Word := 1 << 9
  const Sr1Af: Word := 1 << 10
  const Sr1Ovr: Word := 1 << 11
  const Sr1Pecerr: Word := 1 << 12
  const Sr1Timeout: Word := 1 << 14

  /** Every SR1 flag that reports a failed bus operation. */
  const Sr1ErrorMask: Word := Sr1Timeout | Sr1Af | Sr1Pecerr | Sr1Ovr | Sr1Arlo | Sr1Berr

  // CCR: duty-cycle bit and speed-grade bit.
  const CcrDuty: Word := 1 << 14
  const CcrStdMode: Word := 0 << 15
  const CcrFastMode: Word := 1 << 15

  /** One access to the register block, in the order the driver made it. */
  datatype Access = Read(reg: nat, value: Word) | Write(reg: nat, value: Word)

  /** The hardware: register file, access trace, and the values SR1 and DR
      will return on their next reads (once a list runs out, reads give 0). */
  datatype Hw = Hw(regs: map<nat, Word>, trace: seq<Access>, sr1: seq<Word>, rx: seq<Word>)

  /** The i-th value a feed will deliver; 0 once the feed has run out. */
  function Peek(feed: seq<Word>, i: nat): Word {
    if i < |feed| then feed[i] else 0
  }

  /** A feed after one read. */
  function Drop1(feed: seq<Word>): seq<Word> {
    if feed == [] then [] else feed[1..]
  }

  lemma PeekDrop1(feed: seq<Word>, i: nat)
    ensures Peek(Drop1(feed), i) == Peek(feed, i + 1)
  {
  }

  /** The value a register holds: the last one written to it, 0 if none was. */
  function RegValue(h: Hw, r: nat): Word {
    if r in h.regs then h.regs[r] else 0
  }

  /** What a read of register r returns: SR1 and DR come from the hardware's
      feeds, every other register reads back its last written value. */
  function ReadValue(h: Hw, r: nat): Word {
    if r == SR1 then Peek(h.sr1, 0)
    else if r == DR then Peek(h.rx, 0)
    else RegValue(h, r)
  }

  /** The hardware after `read32(base + r)`. */
  function AfterRead(h: Hw, r: nat): Hw {
    h.(trace := h.trace + [Read(r, ReadValue(h, r))],
       sr1 := if r == SR1 then Drop1(h.sr1) else h.sr1,
       rx := if r == DR then Drop1(h.rx) else h.rx)
  }

  /** The hardware after `write32(base + r, v)`. */
  function AfterWrite(h: Hw, r: nat, v: Word): Hw {
    h.(regs := h.regs[r := v], trace := h.trace + [Write(r, v)])
  }

  /** True of an SR1 value that has any error flag set: exactly when one of
      BERR, ARLO, AF, OVR, PECERR and TIMEOUT is set. */
  predicate HasError(sr1: Word)
    ensures HasError(sr1) <==>
      sr1 & Sr1Berr != 0 || sr1 & Sr1Arlo != 0 || sr1 & Sr1Af != 0 ||
      sr1 & Sr1Ovr != 0 || sr1 & Sr1Pecerr != 0 || sr1 & Sr1Timeout != 0
  {
    sr1 & Sr1ErrorMask != 0
  }

  /** True of an SR1 value whose "transmit register empty" flag, bit 7, is
      set. */
  predicate TxeSet(sr1: Word)
    ensures TxeSet(sr1) <==> (sr1 >> 7) & 1 == 1
  {
    sr1 & Sr1Txe != 0
  }

  /** Each of the six error flags alone is an error; the event flags are not. */
  lemma ErrorMaskFlags()
    ensures HasError(Sr1Berr) && HasError(Sr1Arlo) && HasError(Sr1Af)
    ensures HasError(Sr1Ovr) && HasError(Sr1Pecerr) && HasError(Sr1Timeout)
    ensures !HasError(Sr1Sb | Sr1Addr | Sr1Btf | Sr1Rxe | Sr1Txe)
  {
  }
}
