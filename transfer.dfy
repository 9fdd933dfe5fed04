/** The transfer engine: start condition, address phase, data phase and stop
    condition over an ordered list of messages, as value-level functions of
    the hardware, the caller's buffers, the interrupt-enable state and the
    adapter lock.  The driver's methods are proved equal to these. */
module I2cTransfer {
  import opened Errno
  import opened I2cRegisters

  /** One message: target address, direction, length and the caller's
      buffer (which the engine borrows and never checks against length). */
  datatype Msg = Msg(addr: bv16, isRead: bool, length: nat, buffer: array<Byte>)

  /** The contents of the caller's buffers, keyed by buffer identity: two
      messages of one transfer may share a buffer. */
  type Buffers = map<array<Byte>, seq<Byte>>

  /** Everything a transfer can change. */
  datatype State = State(hw: Hw, bufs: Buffers, irqOn: bool, locked: bool)

  /** How a call ends: it returns a code, or it waits on TXE for ever
      (the source has no timeout). */
  datatype Ending = Returns(code: int) | SpinsForever

  /** Every message's buffer is known and at least as long as the message. */
  predicate Fits(bufs: Buffers, msgs: seq<Msg>) {
    forall i :: 0 <= i < |msgs| ==> msgs[i].buffer in bufs && msgs[i].length <= |bufs[msgs[i].buffer]|
  }

  /** The same buffers, each of the same length. */
  predicate SameShape(a: Buffers, b: Buffers) {
    a.Keys == b.Keys && forall k <- a.Keys :: |a[k]| == |b[k]|
  }

  /** h1's trace continues h0's. */
  predicate Extends(h0: Hw, h1: Hw) {
    |h0.trace| <= |h1.trace| && h1.trace[..|h0.trace|] == h0.trace
  }

  /** The accesses made between h0 and h1. */
  function Since(h0: Hw, h1: Hw): seq<Access> {
    if |h0.trace| <= |h1.trace| then h1.trace[|h0.trace|..] else []
  }

  lemma SinceSplit(a: Hw, b: Hw, c: Hw)
    requires Extends(a, b) && Extends(b, c)
    ensures Extends(a, c) && Since(a, c) == Since(a, b) + Since(b, c)
  {
    assert c.trace == b.trace + Since(b, c);
    assert b.trace == a.trace + Since(a, b);
    assert c.trace == a.trace + (Since(a, b) + Since(b, c));
  }

  /** Every register but r1 and r2 holds the same value in h0 and h1. */
  ghost predicate KeepsAllBut(h0: Hw, h1: Hw, r1: nat, r2: nat) {
    forall reg :: reg != r1 && reg != r2 ==> RegValue(h1, reg) == RegValue(h0, reg)
  }

  /** The byte a received DR value leaves in a `uint8_t` buffer: the value's
      low eight bits, so the value is its upper bits followed by the byte. */
  function LowByte(v: Word): (b: Byte)
    ensures v == ((v >> 8) << 8) | (b as Word)
  {
    (v & 0xff) as Byte
  }

  /** The address byte: the address shifted left by one, with bit 0 set for
      a read and clear for a write; shifting back recovers the address. */
  function AddressByte(addr: bv16, isRead: bool): (b: Word)
    ensures b >> 1 == addr as Word
    ensures b & 1 == (if isRead then 1 else 0)
  {
    (addr as Word << 1) | (if isRead then 1 else 0)
  }

  /** The write accesses of a trace, in order. */
  function Writes(t: seq<Access>): seq<Access> {
    if t == [] then [] else (if t[0].Write? then [t[0]] else []) + Writes(t[1..])
  }

  lemma {:induction false} WritesConcat(a: seq<Access>, b: seq<Access>)
    ensures Writes(a + b) == Writes(a) + Writes(b)
  {
    if a == [] {
      assert a + b == b;
    } else {
      assert (a + b)[0] == a[0];
      assert (a + b)[1..] == a[1..] + b;
      WritesConcat(a[1..], b);
    }
  }

  /** The DR writes that send data, byte by byte. */
  function DataWrites(data: seq<Byte>): seq<Access> {
    if data == [] then [] else [Write(DR, data[0] as Word)] + DataWrites(data[1..])
  }

  /** Only SR1 reads and DR writes, and every DR write comes right after an
      SR1 read that saw the transmit register empty. */
  predicate PacedWrites(t: seq<Access>) {
    forall j {:trigger t[j]} :: 0 <= j < |t| ==>
      (t[j].Read? && t[j].reg == SR1) ||
      (t[j].Write? && t[j].reg == DR && j > 0 && t[j - 1].Read? && t[j - 1].reg == SR1 && TxeSet(t[j - 1].value))
  }

  lemma PacedConcat(a: seq<Access>, b: seq<Access>)
    requires PacedWrites(a) && PacedWrites(b)
    ensures PacedWrites(a + b)
  {
    var u := a + b;
    forall j | 0 <= j < |u|
      ensures (u[j].Read? && u[j].reg == SR1) ||
        (u[j].Write? && u[j].reg == DR && j > 0 && u[j - 1].Read? && u[j - 1].reg == SR1 && TxeSet(u[j - 1].value))
    {
      if j < |a| {
        assert u[j] == a[j];
        if j > 0 { assert u[j - 1] == a[j - 1]; }
      } else {
        var i := j - |a|;
        assert u[j] == b[i];
        assert (b[i].Read? && b[i].reg == SR1) || (b[i].Write? && i > 0 && b[i - 1].Read? && b[i - 1].reg == SR1 && TxeSet(b[i - 1].value));
        if i > 0 { assert u[j - 1] == b[i - 1]; }
      }
    }
  }

  // ---------------------------------------------------------------------
  // Phases of one message

  /** `stm32_i2c_generate_start_condition`: set START (with PE), read SR1,
      and fail with -EIO when any error flag is set. */
  function StartCondition(h: Hw): (r: (Hw, int))
    ensures r.1 == (if HasError(Peek(h.sr1, 0)) then -EIO else 0)
    ensures r.0.trace == h.trace + [Write(CR1, Cr1Pe | Cr1Start), Read(SR1, Peek(h.sr1, 0))]
    ensures r.0.regs == h.regs[CR1 := Cr1Pe | Cr1Start] && r.0.sr1 == Drop1(h.sr1) && r.0.rx == h.rx
  {
    var h1 := AfterWrite(h, CR1, Cr1Pe | Cr1Start);
    var sr1 := ReadValue(h1, SR1);
    (AfterRead(h1, SR1), if sr1 & Sr1ErrorMask != 0 then -EIO else 0)
  }

  /** `stm32_i2c_generate_stop_condition`: set STOP (with PE). */
  function StopCondition(h: Hw): (r: Hw)
    ensures r.trace == h.trace + [Write(CR1, Cr1Pe | Cr1Stop)]
    ensures RegValue(r, CR1) == Cr1Pe | Cr1Stop && r.sr1 == h.sr1 && r.rx == h.rx
    ensures KeepsAllBut(h, r, CR1, CR1)
  {
    AfterWrite(h, CR1, Cr1Pe | Cr1Stop)
  }

  /** `stm32_i2c_send_rx_address` / `stm32_i2c_send_tx_address`: write the
      address byte to DR, read SR1, fail with -EIO on any error flag, and
      only then read SR2 (which clears the address-sent flag). */
  function AddressPhase(h: Hw, byte: Word): (r: (Hw, int))
    ensures r.1 == (if HasError(Peek(h.sr1, 0)) then -EIO else 0)
    ensures r.0.trace == h.trace + [Write(DR, byte), Read(SR1, Peek(h.sr1, 0))] +
      (if r.1 == 0 then [Read(SR2, RegValue(h, SR2))] else [])
    ensures r.0.regs == h.regs[DR := byte] && r.0.sr1 == Drop1(h.sr1) && r.0.rx == h.rx
  {
    var h1 := AfterWrite(h, DR, byte);
    var sr1 := ReadValue(h1, SR1);
    var h2 := AfterRead(h1, SR1);
    if sr1 & Sr1ErrorMask != 0 then (h2, -EIO)
    else (AfterRead(h2, SR2), 0)
  }

  /** The read loop of `stm32_i2c_recv`: n consecutive DR reads, each
      truncated to a byte. */
  function RecvData(h: Hw, n: nat): (r: (Hw, seq<Byte>))
    decreases n
    ensures |r.1| == n && Extends(h, r.0)
    ensures r.0.regs == h.regs && r.0.sr1 == h.sr1
  {
    if n == 0 then (h, [])
    else
      var h1 := AfterRead(h, DR);
      var r := RecvData(h1, n - 1);
      (r.0, [LowByte(ReadValue(h, DR))] + r.1)
  }

  /** The read loop one read longer: the extra read comes last. */
  lemma {:induction false} RecvDataSnoc(h: Hw, n: nat)
    decreases n
    ensures RecvData(h, n + 1).0 == AfterRead(RecvData(h, n).0, DR)
    ensures RecvData(h, n + 1).1 == RecvData(h, n).1 + [LowByte(ReadValue(RecvData(h, n).0, DR))]
  {
    if n > 0 {
      var h1 := AfterRead(h, DR);
      var b := LowByte(ReadValue(h, DR));
      var r1 := RecvData(h1, n - 1);
      var x := LowByte(ReadValue(r1.0, DR));
      RecvDataSnoc(h1, n - 1);
      assert RecvData(h, n).0 == r1.0 && RecvData(h, n).1 == [b] + r1.1;
      assert RecvData(h, n + 1).1 == [b] + (r1.1 + [x]);
      assert [b] + (r1.1 + [x]) == ([b] + r1.1) + [x];
    } else {
      RecvDataOne(h);
    }
  }

  /** A single read of the loop. */
  lemma RecvDataOne(h: Hw)
    ensures RecvData(h, 1) == (AfterRead(h, DR), [] + [LowByte(ReadValue(h, DR))])
  {
    var b := LowByte(ReadValue(h, DR));
    assert RecvData(AfterRead(h, DR), 0) == (AfterRead(h, DR), []);
    assert [b] + [] == [] + [b];
  }

  /** Overwriting the first element after a prefix extends the prefix. */
  lemma UpdateAfter<T>(a: seq<T>, b: seq<T>, x: T)
    requires b != []
    ensures (a + b)[|a| := x] == (a + [x]) + b[1..]
  {
  }

  /** RecvData makes exactly n DR reads, of the next n values the hardware
      delivers. */
  lemma {:induction false} RecvDataReads(h: Hw, n: nat)
    decreases n
    ensures var r := RecvData(h, n);
      |Since(h, r.0)| == n &&
      forall k :: 0 <= k < n ==> Since(h, r.0)[k] == Read(DR, Peek(h.rx, k))
  {
    if n > 0 {
      var h1 := AfterRead(h, DR);
      var r1 := RecvData(h1, n - 1);
      RecvDataReads(h1, n - 1);
      assert RecvData(h, n).0 == r1.0;
      SinceAppend(h, h1, [Read(DR, Peek(h.rx, 0))]);
      SinceSplit(h, h1, r1.0);
      var t := Since(h, r1.0);
      assert t == [Read(DR, Peek(h.rx, 0))] + Since(h1, r1.0);
      forall k | 0 < k < n ensures t[k] == Read(DR, Peek(h.rx, k)) {
        PeekDrop1(h.rx, k - 1);
      }
    }
  }

  /** RecvData consumes the n values it reads. */
  lemma {:induction false} RecvDataConsumes(h: Hw, n: nat)
    decreases n
    ensures RecvData(h, n).0.rx == if n <= |h.rx| then h.rx[n..] else []
  {
    if n > 0 {
      var h1 := AfterRead(h, DR);
      RecvDataConsumes(h1, n - 1);
      assert RecvData(h, n).0 == RecvData(h1, n - 1).0;
      if n <= |h.rx| {
        assert h1.rx[n - 1..] == h.rx[n..];
      }
    }
  }

  /** Byte k that RecvData yields is the low byte of the k-th value the
      hardware delivers. */
  lemma {:induction false} RecvDataBytes(h: Hw, n: nat)
    decreases n
    ensures forall k :: 0 <= k < n ==> RecvData(h, n).1[k] == LowByte(Peek(h.rx, k))
  {
    if n > 0 {
      var h1 := AfterRead(h, DR);
      var r1 := RecvData(h1, n - 1);
      RecvDataBytes(h1, n - 1);
      assert RecvData(h, n).1 == [LowByte(Peek(h.rx, 0))] + r1.1;
      forall k | 0 < k < n ensures RecvData(h, n).1[k] == LowByte(Peek(h.rx, k)) {
        PeekDrop1(h.rx, k - 1);
      }
    }
  }

  /** The TXE spin of `stm32_i2c_send`: read SR1 until TXE is set.  When the
      status values run out without TXE, every later read gives 0 and the
      loop never ends: the second component is then true. */
  function WaitTxe(h: Hw): (r: (Hw, bool))
    decreases |h.sr1|
    ensures r.0.regs == h.regs && r.0.rx == h.rx && Extends(h, r.0)
  {
    if h.sr1 == [] then (h, true)
    else
      var h1 := AfterRead(h, SR1);
      if TxeSet(h.sr1[0]) then (h1, false)
      else
        var r := WaitTxe(h1);
        SinceSplit(h, h1, r.0);
        r
  }

  /** WaitTxe reads the status values in order, from the first on. */
  lemma {:induction false} WaitTxeReads(h: Hw)
    decreases |h.sr1|
    ensures var r := WaitTxe(h); var t := Since(h, r.0);
      |t| <= |h.sr1| && r.0.sr1 == h.sr1[|t|..] &&
      forall j :: 0 <= j < |t| ==> t[j] == Read(SR1, h.sr1[j])
  {
    if h.sr1 != [] {
      var h1 := AfterRead(h, SR1);
      assert Extends(h, h1) && Since(h, h1) == [Read(SR1, h.sr1[0])];
      assert h1.sr1 == h.sr1[1..];
      if !TxeSet(h.sr1[0]) {
        var r1 := WaitTxe(h1);
        WaitTxeReads(h1);
        SinceSplit(h, h1, r1.0);
      }
    }
  }

  /** The wait ends at the first status value with TXE set; it spins
      exactly when none of them has TXE, after reading them all. */
  lemma {:induction false} WaitTxeEnds(h: Hw)
    decreases |h.sr1|
    ensures var r := WaitTxe(h); var n := |Since(h, r.0)|;
      (r.1 ==> n == |h.sr1| && forall j :: 0 <= j < |h.sr1| ==> !TxeSet(h.sr1[j])) &&
      (!r.1 ==> 0 < n <= |h.sr1| && TxeSet(h.sr1[n - 1]) && forall j :: 0 <= j < n - 1 ==> !TxeSet(h.sr1[j]))
  {
    if h.sr1 != [] {
      var h1 := AfterRead(h, SR1);
      assert Extends(h, h1) && |Since(h, h1)| == 1;
      if !TxeSet(h.sr1[0]) {
        var r1 := WaitTxe(h1);
        WaitTxeEnds(h1);
        SinceSplit(h, h1, r1.0);
        assert h1.sr1 == h.sr1[1..];
      }
    }
  }

  /** The accesses of a wait are SR1 reads only, and when it ends the last
      one saw TXE, so a DR write may follow. */
  lemma WaitTxePaced(h: Hw, v: Word)
    ensures var r := WaitTxe(h); var t := Since(h, r.0);
      PacedWrites(t) && Writes(t) == [] && (!r.1 ==> PacedWrites(t + [Write(DR, v)]))
  {
    var r := WaitTxe(h);
    var t := Since(h, r.0);
    WaitTxeReads(h);
    WaitTxeEnds(h);
    ReadsHaveNoWrites(t);
    assert PacedWrites(t);
    if !r.1 {
      var last := t[|t| - 1];
      assert last == Read(SR1, h.sr1[|t| - 1]);
      assert TxeSet(h.sr1[|t| - 1]);
      assert last.Read? && last.reg == SR1 && TxeSet(last.value);
      PacedThenWrite(t, v);
    }
  }

  /** A paced trace whose last access is an SR1 read with TXE set stays
      paced with one DR write appended. */
  lemma PacedThenWrite(t: seq<Access>, v: Word)
    requires PacedWrites(t) && |t| > 0
    requires t[|t| - 1].Read? && t[|t| - 1].reg == SR1 && TxeSet(t[|t| - 1].value)
    ensures PacedWrites(t + [Write(DR, v)])
  {
    var u := t + [Write(DR, v)];
    forall j | 0 <= j < |u|
      ensures (u[j].Read? && u[j].reg == SR1) ||
        (u[j].Write? && u[j].reg == DR && j > 0 && u[j - 1].Read? && u[j - 1].reg == SR1 && TxeSet(u[j - 1].value))
    {
      if j == |t| {
        assert u[j - 1] == t[|t| - 1];
      } else {
        assert u[j] == t[j];
        if j > 0 {
          assert u[j - 1] == t[j - 1];
        }
      }
    }
  }

  lemma {:induction false} ReadsHaveNoWrites(t: seq<Access>)
    requires forall j :: 0 <= j < |t| ==> t[j].Read?
    ensures Writes(t) == []
  {
    if t != [] {
      ReadsHaveNoWrites(t[1..]);
    }
  }

  /** The write loop of `stm32_i2c_send`: for each byte, wait for TXE and
      write the byte to DR.  The second component is true when a wait never
      ends. */
  function SendData(h: Hw, data: seq<Byte>): (r: (Hw, bool))
    decreases |data|
    ensures r.0.rx == h.rx && Extends(h, r.0) && KeepsAllBut(h, r.0, DR, DR)
  {
    if data == [] then (h, false)
    else
      var w := WaitTxe(h);
      if w.1 then w
      else
        var h2 := AfterWrite(w.0, DR, data[0] as Word);
        var r := SendData(h2, data[1..]);
        assert Extends(w.0, h2);
        SinceSplit(h, w.0, h2);
        SinceSplit(h, h2, r.0);
        r
  }

  /** SendData's accesses are paced: each DR write right after an SR1 read
      that saw TXE.  Its DR writes are the data bytes in order; when a wait
      never ends, the bytes written before it are a proper prefix of data. */
  lemma {:induction false} SendDataPaced(h: Hw, data: seq<Byte>)
    decreases |data|
    ensures var r := SendData(h, data); var t := Since(h, r.0);
      PacedWrites(t) &&
      (!r.1 ==> Writes(t) == DataWrites(data)) &&
      (r.1 ==> |Writes(t)| < |data| && Writes(t) == DataWrites(data[..|Writes(t)|]))
  {
    if data == [] {
      assert Since(h, h) == [];
    } else {
      var w := WaitTxe(h);
      var x := Write(DR, data[0] as Word);
      WaitTxePaced(h, data[0] as Word);
      if w.1 {
        assert data[..0] == [];
      } else {
        var h2 := AfterWrite(w.0, DR, data[0] as Word);
        var r := SendData(h2, data[1..]);
        SendDataPaced(h2, data[1..]);
        var a, b := Since(h, w.0), Since(h2, r.0);
        assert Extends(w.0, h2) && Since(w.0, h2) == [x];
        SinceSplit(h, w.0, h2);
        SinceSplit(h, h2, r.0);
        assert Since(h, r.0) == (a + [x]) + b;
        PacedStep(a, b, data);
      }
    }
  }

  /** One wait, one data write, then the rest of the data phase. */
  lemma PacedStep(a: seq<Access>, b: seq<Access>, data: seq<Byte>)
    requires data != [] && Writes(a) == [] && PacedWrites(a + [Write(DR, data[0] as Word)]) && PacedWrites(b)
    ensures var t := (a + [Write(DR, data[0] as Word)]) + b;
      PacedWrites(t) &&
      (Writes(b) == DataWrites(data[1..]) ==> Writes(t) == DataWrites(data)) &&
      (|Writes(b)| < |data| - 1 && Writes(b) == DataWrites(data[1..][..|Writes(b)|]) ==>
        |Writes(t)| < |data| && Writes(t) == DataWrites(data[..|Writes(t)|]))
  {
    var x := Write(DR, data[0] as Word);
    WritesConcat(a, [x]);
    WritesConcat(a + [x], b);
    assert Writes([x]) == [x];
    var t := (a + [x]) + b;
    assert Writes(t) == [x] + Writes(b);
    PacedConcat(a + [x], b);
    var k := |Writes(b)|;
    if k < |data| - 1 {
      assert data[..k + 1][0] == data[0] && data[..k + 1][1..] == data[1..][..k];
    }
  }

  /** `stm32_i2c_recv` after its start condition: the read-address phase,
      then, if it succeeded, n DR reads.  Yields the hardware, the return
      code and the received bytes. */
  function RecvPhase(h: Hw, addr: bv16, n: nat): (r: (Hw, int, seq<Byte>))
    ensures Extends(h, r.0) && KeepsAllBut(h, r.0, DR, DR) && (r.1 == 0 ==> |r.2| == n)
  {
    var a := AddressPhase(h, AddressByte(addr, true));
    assert Extends(h, a.0);
    if a.1 != 0 then (a.0, a.1, [])
    else
      var d := RecvData(a.0, n);
      SinceSplit(h, a.0, d.0);
      (d.0, 0, d.1)
  }

  /** `stm32_i2c_send` after its start condition: the write-address phase,
      then, if it succeeded, the paced DR writes of data. */
  function SendPhase(h: Hw, addr: bv16, data: seq<Byte>): (r: (Hw, Ending))
    ensures Extends(h, r.0) && KeepsAllBut(h, r.0, DR, DR)
  {
    var a := AddressPhase(h, AddressByte(addr, false));
    assert Extends(h, a.0);
    if a.1 != 0 then (a.0, Returns(a.1))
    else
      var d := SendData(a.0, data);
      SinceSplit(h, a.0, d.0);
      (d.0, if d.1 then SpinsForever else Returns(0))
  }

  /** What a read leaves in a buffer: the first n bytes are the received
      DR values in order, every other byte is as before. */
  predicate Filled(before: seq<Byte>, after: seq<Byte>, n: nat, rx: seq<Word>) {
    n <= |before| && |after| == |before| && after[n..] == before[n..] &&
    forall k :: 0 <= k < n ==> after[k] == LowByte(Peek(rx, k))
  }

  /** One iteration of the transfer loop: a (repeated) start condition, then
      the receive or send routine for the message. */
  function StepMsg(e: State, m: Msg): (r: (State, Ending))
    requires m.buffer in e.bufs && m.length <= |e.bufs[m.buffer]|
    ensures SameShape(e.bufs, r.0.bufs)
  {
    var s := StartCondition(e.hw);
    if s.1 != 0 then (e.(hw := s.0), Returns(s.1))
    else if m.isRead then
      var p := RecvPhase(s.0, m.addr, m.length);
      var bufs := if p.1 == 0 then e.bufs[m.buffer := p.2 + e.bufs[m.buffer][m.length..]] else e.bufs;
      (e.(hw := p.0, bufs := bufs), Returns(p.1))
    else
      var p := SendPhase(s.0, m.addr, e.bufs[m.buffer][..m.length]);
      (e.(hw := p.0, irqOn := p.1 == Returns(0)), p.1)
  }

  /** One message ends in 0, in -EIO exactly when the start or the address
      check sees an error flag, or (a write only) in a wait that never
      ends. */
  lemma StepCodes(e: State, m: Msg)
    requires m.buffer in e.bufs && m.length <= |e.bufs[m.buffer]|
    ensures var r := StepMsg(e, m);
      (r.1 == Returns(0) || r.1 == Returns(-EIO) || (r.1 == SpinsForever && !m.isRead)) &&
      (r.1 == Returns(-EIO) <==> HasError(Peek(e.hw.sr1, 0)) || HasError(Peek(e.hw.sr1, 1)))
  {
    StartSince(e.hw);
  }

  /** One message only appends to the trace, changes no register but CR1
      and DR, and leaves the lock alone. */
  lemma StepFrame(e: State, m: Msg)
    requires m.buffer in e.bufs && m.length <= |e.bufs[m.buffer]|
    ensures var r := StepMsg(e, m);
      Extends(e.hw, r.0.hw) && KeepsAllBut(e.hw, r.0.hw, CR1, DR) && r.0.locked == e.locked
  {
    var s := StartCondition(e.hw);
    StartSince(e.hw);
    if s.1 == 0 {
      var p := if m.isRead then RecvPhase(s.0, m.addr, m.length).0
               else SendPhase(s.0, m.addr, e.bufs[m.buffer][..m.length]).0;
      SinceSplit(e.hw, s.0, p);
    }
  }

  lemma SinceAppend(h0: Hw, h1: Hw, acc: seq<Access>)
    requires h1.trace == h0.trace + acc
    ensures Extends(h0, h1) && Since(h0, h1) == acc
  {
    assert h1.trace[..|h0.trace|] == h0.trace;
    assert h1.trace[|h0.trace|..] == acc;
  }

  /** The accesses of one message up to its data phase: the start and its
      SR1 read, then the address byte, its SR1 read and, only when that
      shows no error, the SR2 read. */
  lemma StepParts(e: State, m: Msg)
    ensures var st := StartCondition(e.hw);
      var ad := AddressPhase(st.0, AddressByte(m.addr, m.isRead));
      var s0, s1 := Peek(e.hw.sr1, 0), Peek(e.hw.sr1, 1);
      Extends(e.hw, st.0) && Since(e.hw, st.0) == [Write(CR1, Cr1Pe | Cr1Start), Read(SR1, s0)] &&
      (st.1 == 0 <==> !HasError(s0)) && (ad.1 == 0 <==> !HasError(s1)) &&
      Extends(e.hw, ad.0) &&
      Since(e.hw, ad.0) == [Write(CR1, Cr1Pe | Cr1Start), Read(SR1, s0),
                            Write(DR, AddressByte(m.addr, m.isRead)), Read(SR1, s1)] +
                           (if HasError(s1) then [] else [Read(SR2, RegValue(e.hw, SR2))])
  {
    var st := StartCondition(e.hw);
    var b := AddressByte(m.addr, m.isRead);
    var ad := AddressPhase(st.0, b);
    var s0, s1 := Peek(e.hw.sr1, 0), Peek(e.hw.sr1, 1);
    StartSince(e.hw);
    AddressSince(st.0, b);
    SinceSplit(e.hw, st.0, ad.0);
    var tail := if HasError(s1) then [] else [Read(SR2, RegValue(e.hw, SR2))];
    assert [Write(CR1, Cr1Pe | Cr1Start), Read(SR1, s0)] + ([Write(DR, b), Read(SR1, s1)] + tail) ==
           [Write(CR1, Cr1Pe | Cr1Start), Read(SR1, s0), Write(DR, b), Read(SR1, s1)] + tail;
  }

  /** The start condition's two accesses; it consumes one SR1 value and
      leaves SR2 alone. */
  lemma StartSince(h: Hw)
    ensures var st := StartCondition(h);
      Extends(h, st.0) && Since(h, st.0) == [Write(CR1, Cr1Pe | Cr1Start), Read(SR1, Peek(h.sr1, 0))] &&
      Peek(st.0.sr1, 0) == Peek(h.sr1, 1) && RegValue(st.0, SR2) == RegValue(h, SR2)
  {
    PeekDrop1(h.sr1, 0);
    SinceAppend(h, StartCondition(h).0, [Write(CR1, Cr1Pe | Cr1Start), Read(SR1, Peek(h.sr1, 0))]);
  }

  /** The address phase's accesses: the byte, the SR1 read, and the SR2
      read only when SR1 shows no error. */
  lemma AddressSince(h: Hw, b: Word)
    ensures var ad := AddressPhase(h, b);
      Extends(h, ad.0) &&
      Since(h, ad.0) == [Write(DR, b), Read(SR1, Peek(h.sr1, 0))] +
                        (if HasError(Peek(h.sr1, 0)) then [] else [Read(SR2, RegValue(h, SR2))])
  {
    SinceAppend(h, AddressPhase(h, b).0, [Write(DR, b), Read(SR1, Peek(h.sr1, 0))] +
                (if HasError(Peek(h.sr1, 0)) then [] else [Read(SR2, RegValue(h, SR2))]));
  }

  /** A message whose start condition sees an error flag: the start and
      its SR1 read are all it does; buffers and interrupts are untouched. */
  lemma StepStartFails(e: State, m: Msg)
    requires m.buffer in e.bufs && m.length <= |e.bufs[m.buffer]|
    requires HasError(Peek(e.hw.sr1, 0))
    ensures var r := StepMsg(e, m);
      r.1 == Returns(-EIO) && r.0.bufs == e.bufs && r.0.irqOn == e.irqOn &&
      Since(e.hw, r.0.hw) == [Write(CR1, Cr1Pe | Cr1Start), Read(SR1, Peek(e.hw.sr1, 0))]
  {
    StepParts(e, m);
  }

  /** A message whose start succeeds but whose address check sees an error
      flag: start, SR1 read, address byte, SR1 read, and nothing else; no
      buffer changes. */
  lemma StepAddressFails(e: State, m: Msg)
    requires m.buffer in e.bufs && m.length <= |e.bufs[m.buffer]|
    requires !HasError(Peek(e.hw.sr1, 0)) && HasError(Peek(e.hw.sr1, 1))
    ensures var r := StepMsg(e, m);
      r.1 == Returns(-EIO) && r.0.bufs == e.bufs &&
      Since(e.hw, r.0.hw) == [Write(CR1, Cr1Pe | Cr1Start), Read(SR1, Peek(e.hw.sr1, 0)),
                              Write(DR, AddressByte(m.addr, m.isRead)), Read(SR1, Peek(e.hw.sr1, 1))]
  {
    StepParts(e, m);
    var st := StartCondition(e.hw);
    var ad := AddressPhase(st.0, AddressByte(m.addr, m.isRead));
    assert StepMsg(e, m).0.hw == ad.0;
  }

  /** A message whose start and address checks both pass: its first five
      accesses are the start, the SR1 read, the address byte, the SR1 read
      and the SR2 read, and the data phase follows them. */
  lemma StepHeader(e: State, m: Msg)
    requires m.buffer in e.bufs && m.length <= |e.bufs[m.buffer]|
    requires !HasError(Peek(e.hw.sr1, 0)) && !HasError(Peek(e.hw.sr1, 1))
    ensures var r := StepMsg(e, m); var t := Since(e.hw, r.0.hw);
      |t| >= 5 &&
      t[..5] == [Write(CR1, Cr1Pe | Cr1Start), Read(SR1, Peek(e.hw.sr1, 0)),
                 Write(DR, AddressByte(m.addr, m.isRead)), Read(SR1, Peek(e.hw.sr1, 1)),
                 Read(SR2, RegValue(e.hw, SR2))]
  {
    StepParts(e, m);
    var st := StartCondition(e.hw);
    var ad := AddressPhase(st.0, AddressByte(m.addr, m.isRead));
    var r := StepMsg(e, m);
    if m.isRead {
      assert r.0.hw == RecvData(ad.0, m.length).0;
    } else {
      assert r.0.hw == SendData(ad.0, e.bufs[m.buffer][..m.length]).0;
    }
    SinceSplit(e.hw, ad.0, r.0.hw);
    assert Since(e.hw, r.0.hw)[..5] == Since(e.hw, ad.0);
  }

  /** A read message leaves the interrupt state and every other buffer
      alone, and on failure its own buffer too. */
  lemma StepReadKeeps(e: State, m: Msg)
    requires m.buffer in e.bufs && m.length <= |e.bufs[m.buffer]| && m.isRead
    ensures var r := StepMsg(e, m);
      r.0.irqOn == e.irqOn &&
      (forall b <- e.bufs.Keys :: b != m.buffer ==> r.0.bufs[b] == e.bufs[b]) &&
      (r.1 != Returns(0) ==> r.0.bufs == e.bufs)
  {
  }

  /** A completed read message leaves the received bytes in the first
      `length` places of its buffer and the rest as before. */
  lemma StepReadFills(e: State, m: Msg)
    requires m.buffer in e.bufs && m.length <= |e.bufs[m.buffer]| && m.isRead
    ensures var r := StepMsg(e, m);
      r.1 == Returns(0) ==> Filled(e.bufs[m.buffer], r.0.bufs[m.buffer], m.length, e.hw.rx)
  {
    var r := StepMsg(e, m);
    var st := StartCondition(e.hw);
    var ad := AddressPhase(st.0, AddressByte(m.addr, true));
    if st.1 == 0 && ad.1 == 0 {
      var d := RecvData(ad.0, m.length);
      assert r.0.bufs[m.buffer] == d.1 + e.bufs[m.buffer][m.length..];
      assert ad.0.rx == e.hw.rx;
      RecvDataBytes(ad.0, m.length);
    }
  }

  /** A completed read phase makes exactly `n` accesses after the three of
      its address byte, the DR reads of the next `n` received values. */
  lemma RecvPhaseTrace(h: Hw, addr: bv16, n: nat)
    ensures var p := RecvPhase(h, addr, n); var t := Since(h, p.0);
      p.1 == 0 ==> |t| == 3 + n && forall k :: 0 <= k < n ==> t[3 + k] == Read(DR, Peek(h.rx, k))
  {
    var a := AddressPhase(h, AddressByte(addr, true));
    if a.1 == 0 {
      var d := RecvData(a.0, n);
      AddressSince(h, AddressByte(addr, true));
      RecvDataReads(a.0, n);
      SinceSplit(h, a.0, d.0);
      var t, u := Since(h, d.0), Since(a.0, d.0);
      assert t == Since(h, a.0) + u;
      forall k | 0 <= k < n ensures t[3 + k] == u[k] { }
    }
  }

  /** A completed read message makes exactly `length` accesses after the
      five of its header, the DR reads of the next `length` received
      values. */
  lemma StepReadTrace(e: State, m: Msg)
    requires m.buffer in e.bufs && m.length <= |e.bufs[m.buffer]| && m.isRead
    ensures var r := StepMsg(e, m); var t := Since(e.hw, r.0.hw);
      r.1 == Returns(0) ==>
        |t| == 5 + m.length && forall k :: 0 <= k < m.length ==> t[5 + k] == Read(DR, Peek(e.hw.rx, k))
  {
    var st := StartCondition(e.hw);
    if st.1 == 0 {
      var p := RecvPhase(st.0, m.addr, m.length);
      StartSince(e.hw);
      RecvPhaseTrace(st.0, m.addr, m.length);
      SinceSplit(e.hw, st.0, p.0);
      if p.1 == 0 {
        var t, u := Since(e.hw, p.0), Since(st.0, p.0);
        assert t == Since(e.hw, st.0) + u;
        forall j | 3 <= j < 3 + m.length ensures t[2 + j] == u[j] { }
      }
    }
  }

  /** A write message changes no buffer.  If its start condition failed the
      interrupt state is untouched; otherwise interrupts end up enabled
      exactly when the message completed, so an address error or a wait that
      never ends leaves them disabled.  After the five protocol accesses the
      data phase is paced by TXE, and on success its DR writes are the
      buffer's first `length` bytes in order. */
  lemma StepWrite(e: State, m: Msg)
    requires m.buffer in e.bufs && m.length <= |e.bufs[m.buffer]| && !m.isRead
    ensures var r := StepMsg(e, m); var t := Since(e.hw, r.0.hw);
      var s0, s1 := Peek(e.hw.sr1, 0), Peek(e.hw.sr1, 1);
      r.0.bufs == e.bufs &&
      (HasError(s0) ==> r.0.irqOn == e.irqOn) &&
      (!HasError(s0) ==> r.0.irqOn == (r.1 == Returns(0))) &&
      (!HasError(s0) && !HasError(s1) ==>
        (|t| >= 5 && PacedWrites(t[5..]) &&
         (r.1 == Returns(0) ==> Writes(t[5..]) == DataWrites(e.bufs[m.buffer][..m.length]))))
  {
    var st := StartCondition(e.hw);
    if st.1 == 0 {
      var ad := AddressPhase(st.0, AddressByte(m.addr, false));
      if ad.1 == 0 {
        var data := e.bufs[m.buffer][..m.length];
        var d := SendData(ad.0, data);
        SendDataPaced(ad.0, data);
        assert Extends(e.hw, st.0) && Extends(st.0, ad.0);
        SinceSplit(e.hw, st.0, ad.0);
        SinceSplit(e.hw, ad.0, d.0);
        assert |Since(e.hw, ad.0)| == 5;
        assert Since(e.hw, d.0)[5..] == Since(ad.0, d.0);
      }
    }
  }

  /** Buffers of the same shape fit the same messages. */
  lemma FitsAfter(a: Buffers, b: Buffers, msgs: seq<Msg>, k: nat)
    requires Fits(a, msgs) && SameShape(a, b) && k <= |msgs|
    ensures Fits(b, msgs[k..])
  {
    forall i | 0 <= i < |msgs| - k
      ensures msgs[k..][i].buffer in b && msgs[k..][i].length <= |b[msgs[k..][i].buffer]|
    {
      assert msgs[k..][i] == msgs[k + i];
    }
  }

  lemma FitsPrefix(bufs: Buffers, msgs: seq<Msg>, k: nat)
    requires Fits(bufs, msgs) && k <= |msgs|
    ensures Fits(bufs, msgs[..k])
  {
    forall i | 0 <= i < k ensures msgs[..k][i] == msgs[i] { }
  }

  /** The processing loop of `stm32_i2c_transfer`: messages in index order,
      leaving the loop at the first one that does not return 0. */
  function Loop(e: State, msgs: seq<Msg>): (r: (State, Ending))
    requires Fits(e.bufs, msgs)
    decreases |msgs|
    ensures SameShape(e.bufs, r.0.bufs)
  {
    if msgs == [] then (e, Returns(0))
    else
      var s := StepMsg(e, msgs[0]);
      if s.1 != Returns(0) then s
      else
        FitsAfter(e.bufs, s.0.bufs, msgs, 1);
        Loop(s.0, msgs[1..])
  }

  /** One turn of the loop from message i: that message's step, then the
      rest of the list if it completed. */
  lemma LoopStep(e: State, msgs: seq<Msg>, i: nat)
    requires i < |msgs| && Fits(e.bufs, msgs[i..])
    ensures msgs[i].buffer in e.bufs && msgs[i].length <= |e.bufs[msgs[i].buffer]|
    ensures var s := StepMsg(e, msgs[i]);
      Fits(s.0.bufs, msgs[i + 1..]) &&
      Loop(e, msgs[i..]) == if s.1 != Returns(0) then s else Loop(s.0, msgs[i + 1..])
  {
    assert msgs[i..][0] == msgs[i];
    assert msgs[i..][1..] == msgs[i + 1..];
    FitsAfter(e.bufs, StepMsg(e, msgs[i]).0.bufs, msgs[i..], 1);
  }

  /** The loop ends in 0, -EIO or a wait that never ends; it only appends
      to the trace, changes no register but CR1 and DR, and leaves the lock
      alone. */
  lemma {:induction false} LoopOutcome(e: State, msgs: seq<Msg>)
    requires Fits(e.bufs, msgs)
    decreases |msgs|
    ensures var r := Loop(e, msgs);
      (r.1 == Returns(0) || r.1 == Returns(-EIO) || r.1 == SpinsForever) &&
      Extends(e.hw, r.0.hw) && KeepsAllBut(e.hw, r.0.hw, CR1, DR) && r.0.locked == e.locked
  {
    if msgs == [] {
      assert Since(e.hw, e.hw) == [];
    } else {
      var s := StepMsg(e, msgs[0]);
      StepCodes(e, msgs[0]);
      StepFrame(e, msgs[0]);
      if s.1 == Returns(0) {
        FitsAfter(e.bufs, s.0.bufs, msgs, 1);
        LoopOutcome(s.0, msgs[1..]);
        SinceSplit(e.hw, s.0.hw, Loop(s.0, msgs[1..]).0.hw);
      }
    }
  }

  /** `stm32_i2c_transfer`: nothing at all for an empty list; otherwise take
      the lock, run the loop, issue a stop condition and release the lock,
      whatever the loop's outcome (unless a TXE wait never ends). */
  function Transfer(e: State, msgs: seq<Msg>): (r: (State, Ending))
    requires Fits(e.bufs, msgs)
    ensures SameShape(e.bufs, r.0.bufs)
  {
    if msgs == [] then (e, Returns(0))
    else
      var l := Loop(e.(locked := true), msgs);
      if l.1 == SpinsForever then l
      else (l.0.(hw := StopCondition(l.0.hw), locked := false), l.1)
  }

  /** An empty list changes nothing and returns 0.  Otherwise, whenever the
      transfer returns, its last access is the CR1 write of PE|STOP, CR1
      holds PE|STOP and the lock is free; only a wait that never ends keeps
      the lock.  The trace is only appended to, and no register but CR1 and
      DR changes. */
  lemma TransferOutcome(e: State, msgs: seq<Msg>)
    requires Fits(e.bufs, msgs)
    ensures var r := Transfer(e, msgs);
      (r.1 == Returns(0) || r.1 == Returns(-EIO) || r.1 == SpinsForever) &&
      (msgs == [] ==> r == (e, Returns(0))) &&
      (msgs != [] && r.1.Returns? ==>
        |r.0.hw.trace| > 0 && r.0.hw.trace[|r.0.hw.trace| - 1] == Write(CR1, Cr1Pe | Cr1Stop) &&
        RegValue(r.0.hw, CR1) == Cr1Pe | Cr1Stop && !r.0.locked) &&
      (msgs != [] && r.1 == SpinsForever ==> r.0.locked) &&
      Extends(e.hw, r.0.hw) && KeepsAllBut(e.hw, r.0.hw, CR1, DR)
  {
    if msgs == [] {
      assert Since(e.hw, e.hw) == [];
    } else {
      var e1 := e.(locked := true);
      var l := Loop(e1, msgs);
      LoopOutcome(e1, msgs);
      if l.1 != SpinsForever {
        var h := StopCondition(l.0.hw);
        assert Extends(l.0.hw, h);
        SinceSplit(e.hw, l.0.hw, h);
      }
    }
  }

  /** Transfer over a non-empty list, spelled out: the loop under the lock,
      then (unless a wait never ended) the stop condition and the unlock. */
  lemma TransferUnfolds(e: State, msgs: seq<Msg>)
    requires Fits(e.bufs, msgs) && msgs != []
    ensures var l := Loop(e.(locked := true), msgs);
      Transfer(e, msgs) == if l.1 == SpinsForever then l else (l.0.(hw := StopCondition(l.0.hw), locked := false), l.1)
  {
  }

  /** Running the loop over a list is running it over a prefix and then,
      if the prefix completed, over the rest: messages are processed in
      index order. */
  lemma {:induction false} LoopSplit(e: State, msgs: seq<Msg>, k: nat)
    requires Fits(e.bufs, msgs) && k <= |msgs|
    decreases k
    ensures Fits(e.bufs, msgs[..k])
    ensures var p := Loop(e, msgs[..k]);
      Fits(p.0.bufs, msgs[k..]) &&
      Loop(e, msgs) == if p.1 == Returns(0) then Loop(p.0, msgs[k..]) else p
  {
    FitsPrefix(e.bufs, msgs, k);
    var p := Loop(e, msgs[..k]);
    FitsAfter(e.bufs, p.0.bufs, msgs, k);
    if k == 0 {
      assert msgs[..0] == [] && msgs[0..] == msgs;
    } else {
      var s := StepMsg(e, msgs[0]);
      assert msgs[..k][0] == msgs[0] && msgs[..k][1..] == msgs[1..][..k - 1];
      if s.1 == Returns(0) {
        FitsAfter(e.bufs, s.0.bufs, msgs, 1);
        LoopSplit(s.0, msgs[1..], k - 1);
        assert msgs[1..][k - 1..] == msgs[k..];
      }
    }
  }

  /** When messages 0..k-1 completed and message k's start or address check
      sees an error flag, the loop ends there with -EIO: message k is the
      last with any register activity. */
  lemma ErrorEndsLoop(e: State, msgs: seq<Msg>, k: nat)
    requires Fits(e.bufs, msgs) && k < |msgs|
    requires Fits(e.bufs, msgs[..k]) && Loop(e, msgs[..k]).1 == Returns(0)
    requires var ek := Loop(e, msgs[..k]).0;
      HasError(Peek(ek.hw.sr1, 0)) || HasError(Peek(ek.hw.sr1, 1))
    ensures var ek := Loop(e, msgs[..k]).0;
      msgs[k].buffer in ek.bufs && msgs[k].length <= |ek.bufs[msgs[k].buffer]| &&
      Loop(e, msgs) == StepMsg(ek, msgs[k]) && Loop(e, msgs).1 == Returns(-EIO)
  {
    LoopSplit(e, msgs, k);
    var ek := Loop(e, msgs[..k]).0;
    LoopStep(ek, msgs, k);
    StepCodes(ek, msgs[k]);
  }

  /** A loop that returns 0 ran every message to completion: each message's
      start and address checks saw no error flag. */
  lemma CompletedLoopRanAll(e: State, msgs: seq<Msg>, k: nat)
    requires Fits(e.bufs, msgs) && k < |msgs| && Loop(e, msgs).1 == Returns(0)
    ensures Fits(e.bufs, msgs[..k])
    ensures var p := Loop(e, msgs[..k]);
      p.1 == Returns(0) &&
      msgs[k].buffer in p.0.bufs && msgs[k].length <= |p.0.bufs[msgs[k].buffer]| &&
      StepMsg(p.0, msgs[k]).1 == Returns(0) &&
      !HasError(Peek(p.0.hw.sr1, 0)) && !HasError(Peek(p.0.hw.sr1, 1))
  {
    LoopSplit(e, msgs, k);
    var p := Loop(e, msgs[..k]);
    LoopStep(p.0, msgs, k);
    StepCodes(p.0, msgs[k]);
  }

  /** An error flag right after the first start condition: the transfer
      returns -EIO after exactly the start, its SR1 read and the stop, and
      releases the lock. */
  lemma StartErrorAborts(e: State, msgs: seq<Msg>)
    requires Fits(e.bufs, msgs) && msgs != [] && HasError(Peek(e.hw.sr1, 0))
    ensures var r := Transfer(e, msgs);
      r.1 == Returns(-EIO) && !r.0.locked &&
      Since(e.hw, r.0.hw) == [Write(CR1, Cr1Pe | Cr1Start), Read(SR1, Peek(e.hw.sr1, 0)), Write(CR1, Cr1Pe | Cr1Stop)]
  {
    var e1 := e.(locked := true);
    StepStartFails(e1, msgs[0]);
    var s := StepMsg(e1, msgs[0]);
    assert Loop(e1, msgs) == s;
    SinceSplit(e.hw, s.0.hw, StopCondition(s.0.hw));
  }

  /** When messages 0..k-1 completed under the lock and message k's start
      or address check sees an error flag, the transfer returns -EIO: after
      the prefix's accesses come message k's two (start error) or four
      (address error) accesses and the PE|STOP write, message k changes no
      buffer, and the lock is released. */
  lemma ErrorAbortsTransfer(e: State, msgs: seq<Msg>, k: nat)
    requires Fits(e.bufs, msgs) && k < |msgs|
    requires Fits(e.bufs, msgs[..k]) && Loop(e.(locked := true), msgs[..k]).1 == Returns(0)
    requires var ek := Loop(e.(locked := true), msgs[..k]).0;
      HasError(Peek(ek.hw.sr1, 0)) || HasError(Peek(ek.hw.sr1, 1))
    ensures var ek := Loop(e.(locked := true), msgs[..k]).0;
      var r := Transfer(e, msgs); var s0 := Peek(ek.hw.sr1, 0);
      r.1 == Returns(-EIO) && !r.0.locked && r.0.bufs == ek.bufs &&
      Extends(e.hw, ek.hw) && Extends(ek.hw, r.0.hw) &&
      Since(ek.hw, r.0.hw) ==
        (if HasError(s0) then [Write(CR1, Cr1Pe | Cr1Start), Read(SR1, s0)]
         else [Write(CR1, Cr1Pe | Cr1Start), Read(SR1, s0),
               Write(DR, AddressByte(msgs[k].addr, msgs[k].isRead)), Read(SR1, Peek(ek.hw.sr1, 1))])
        + [Write(CR1, Cr1Pe | Cr1Stop)]
  {
    var e1 := e.(locked := true);
    ErrorEndsLoop(e1, msgs, k);
    LoopOutcome(e1, msgs[..k]);
    var ek := Loop(e1, msgs[..k]).0;
    var s := StepMsg(ek, msgs[k]);
    if HasError(Peek(ek.hw.sr1, 0)) {
      StepStartFails(ek, msgs[k]);
    } else {
      StepAddressFails(ek, msgs[k]);
    }
    StepFrame(ek, msgs[k]);
    TransferUnfolds(e, msgs);
    var h := StopCondition(s.0.hw);
    assert Since(s.0.hw, h) == [Write(CR1, Cr1Pe | Cr1Stop)];
    SinceSplit(ek.hw, s.0.hw, h);
  }

  /** A single zero-length write whose checks see no error flag: start,
      address byte, SR2 read and stop, in that order, and nothing else. */
  lemma ZeroLengthWrite(e: State, m: Msg)
    requires m.buffer in e.bufs && !m.isRead && m.length == 0
    requires !HasError(Peek(e.hw.sr1, 0)) && !HasError(Peek(e.hw.sr1, 1))
    ensures Fits(e.bufs, [m])
    ensures var r := Transfer(e, [m]);
      r.1 == Returns(0) && !r.0.locked && r.0.irqOn && r.0.bufs == e.bufs &&
      Since(e.hw, r.0.hw) == [Write(CR1, Cr1Pe | Cr1Start), Read(SR1, Peek(e.hw.sr1, 0)),
                              Write(DR, AddressByte(m.addr, false)), Read(SR1, Peek(e.hw.sr1, 1)),
                              Read(SR2, RegValue(e.hw, SR2)), Write(CR1, Cr1Pe | Cr1Stop)]
  {
    var e1 := e.(locked := true);
    StepHeader(e1, m);
    StepWrite(e1, m);
    var s := StepMsg(e1, m);
    assert [m][1..] == [];
    assert Loop(e1, [m]) == s;
    var ad := AddressPhase(StartCondition(e1.hw).0, AddressByte(m.addr, false));
    assert SendData(ad.0, e.bufs[m.buffer][..0]) == (ad.0, false);
    assert |Since(e.hw, s.0.hw)| == 5;
    SinceSplit(e.hw, s.0.hw, StopCondition(s.0.hw));
  }
}
