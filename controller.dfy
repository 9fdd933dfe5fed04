/** The driver object: one STM32 I2C controller as the driver drives it.
    Its fields are the register block (a register file, the trace of every
    access, and the values the status and data registers will deliver), the
    adapter's private allocation, and two ghost flags: whether the adapter
    mutex is held and whether interrupts are enabled.  Every method does
    what its C counterpart does, step by step, and is proved to leave the
    state the matching value-level function of I2cTiming or I2cTransfer
    describes. */
module Stm32I2c {
  import opened Errno
  import opened I2cRegisters
  import opened I2cTiming
  import opened I2cTransfer

  datatype Option<T> = None | Some(value: T)

  /** The board data the driver gets from the platform: the APB1 input
      clock of the controller, in Hz. */
  datatype Platform = Platform(clk: u32)

  /** The adapter's private allocation, as `device->priv` refers to it. */
  datatype Priv = NoPriv | Allocated | Freed

  /** The ioctl requests: a transfer over a message list, a frequency
      change, and any other command number. */
  datatype Request = TransferRequest(msgs: seq<Msg>) | SetFrequencyRequest(freq: u32) | OtherRequest(cmd: nat)

  /** The value `open` writes to CR2: the input clock in MHz, with the
      event and error interrupts enabled: both enable bits are always set,
      and every other bit is the MHz count's. */
  function Cr2Value(clk: u32): (v: Word)
    ensures v & Cr2Itevten != 0 && v & Cr2Iterren != 0
    ensures v & !(Cr2Itevten | Cr2Iterren) == (clk / OneMhz) as Word & !(Cr2Itevten | Cr2Iterren)
  {
    DivIsAtMost(clk, OneMhz);
    (clk / OneMhz) as Word | Cr2Itevten | Cr2Iterren
  }

  /** Below 64 MHz the clock count fits CR2's six-bit frequency field, and
      both interrupt enables are set. */
  lemma Cr2Fields(clk: u32)
    requires clk < 64 * OneMhz
    ensures Cr2Value(clk) & 0x3f == (clk / OneMhz) as Word
    ensures Cr2Value(clk) & Cr2Itevten != 0 && Cr2Value(clk) & Cr2Iterren != 0
  {
    DivIsAtMost(clk, OneMhz);
    var mhz := (clk / OneMhz) as Word;
    assert mhz < 64;
  }

  /** The register effects of a successful `stm32_i2c_open`: disable the
      controller, program CR2, configure the standard-mode ceiling (whose
      save of CR1 reads back the 0 just written), and enable the
      controller.  The accesses are exactly these eight, in this order, and
      the registers are left holding the values written last. */
  function OpenRegisters(h: Hw, clk: u32): (r: Hw)
    ensures r.sr1 == h.sr1 && r.rx == h.rx
    ensures r.trace == h.trace + [Write(CR1, 0), Write(CR2, Cr2Value(clk)), Read(CR1, 0), Write(CR1, 0),
                                  Write(CCR, CcrValue(clk, StdModeMaxFreq)), Write(TRISE, StdRiseTime(clk)),
                                  Write(CR1, 0), Write(CR1, Cr1Pe)]
  {
    var h1 := AfterWrite(AfterWrite(h, CR1, 0), CR2, Cr2Value(clk));
    assert RegValue(h1, CR1) == 0;
    AfterWrite(SetFreq(h1, clk, StdModeMaxFreq).0, CR1, Cr1Pe)
  }

  /** After open the controller is enabled and CR2 holds the clock in MHz
      with both interrupt enables. */
  lemma OpenControl(h: Hw, clk: u32)
    ensures var r := OpenRegisters(h, clk);
      RegValue(r, CR1) == Cr1Pe && RegValue(r, CR2) == Cr2Value(clk)
  {
    var h1 := AfterWrite(AfterWrite(h, CR1, 0), CR2, Cr2Value(clk));
    assert RegValue(SetFreq(h1, clk, StdModeMaxFreq).0, CR2) == Cr2Value(clk);
  }

  /** After open CCR holds the standard-mode clock-control value. */
  lemma OpenCcrValue(h: Hw, clk: u32)
    ensures RegValue(OpenRegisters(h, clk), CCR) == CcrValue(clk, StdModeMaxFreq)
  {
    var h1 := AfterWrite(AfterWrite(h, CR1, 0), CR2, Cr2Value(clk));
    var s := SetFreq(h1, clk, StdModeMaxFreq).0;
    assert RegValue(s, CCR) == CcrValue(clk, StdModeMaxFreq);
    assert RegValue(AfterWrite(s, CR1, Cr1Pe), CCR) == RegValue(s, CCR);
  }

  /** After open TRISE holds the standard-mode rise time. */
  lemma OpenRiseTime(h: Hw, clk: u32)
    ensures RegValue(OpenRegisters(h, clk), TRISE) == StdRiseTime(clk)
  {
    var h1 := AfterWrite(AfterWrite(h, CR1, 0), CR2, Cr2Value(clk));
    var s := SetFreq(h1, clk, StdModeMaxFreq).0;
    assert RegValue(s, TRISE) == StdRiseTime(clk);
    assert RegValue(AfterWrite(s, CR1, Cr1Pe), TRISE) == RegValue(s, TRISE);
  }

  /** The board's 42 MHz clock gives CR2 = 42 with both interrupt enables. */
  lemma BoardCr2()
    ensures Cr2Value(42_000_000) == 0x32a
  {
    assert 42_000_000 / OneMhz == 42;
  }

  /** The board's 42 MHz clock: CR2 = 42 with both interrupt enables,
      CCR = 140 and TRISE = 43 after open. */
  lemma BoardOpen(h: Hw)
    ensures var r := OpenRegisters(h, 42_000_000);
      RegValue(r, CR2) == 0x32a && RegValue(r, CCR) == 140 && RegValue(r, TRISE) == 43
  {
    OpenControl(h, 42_000_000);
    BoardCr2();
    OpenCcrValue(h, 42_000_000);
    OpenRiseTime(h, 42_000_000);
    BoardClockAt100kHz();
  }

  class Controller {
    const pdata: Option<Platform>
    var regs: map<nat, Word>
    var trace: seq<Access>
    var sr1Feed: seq<Word>
    var rxFeed: seq<Word>
    var priv: Priv
    ghost var locked: bool
    ghost var irqEnabled: bool

    /** A controller fresh from probe: no register written yet, interrupts
        on, mutex free; sr1 and rx are what the hardware will report. */
    constructor (pdata: Option<Platform>, sr1: seq<Word>, rx: seq<Word>)
      ensures this.pdata == pdata && priv == NoPriv && !locked && irqEnabled
      ensures Hardware() == Hw(map[], [], sr1, rx)
    {
      this.pdata := pdata;
      regs := map[];
      trace := [];
      sr1Feed := sr1;
      rxFeed := rx;
      priv := NoPriv;
      locked := false;
      irqEnabled := true;
    }

    /** The register block as a value. */
    function Hardware(): Hw
      reads this
    {
      Hw(regs, trace, sr1Feed, rxFeed)
    }

    /** The platform clock; 0 stands for a missing platform, whose clock
        no accepted path uses. */
    function Clock(): u32 {
      if pdata.Some? then pdata.value.clk else 0
    }

    /** The buffers of a message list. */
    ghost function BufferSet(msgs: seq<Msg>): set<array<Byte>> {
      set i | 0 <= i < |msgs| :: msgs[i].buffer
    }

    /** The current contents of those buffers. */
    ghost function Contents(msgs: seq<Msg>): Buffers
      reads BufferSet(msgs)
    {
      map b | b in BufferSet(msgs) :: b[..]
    }

    /** Everything a transfer over msgs can change, as a value. */
    ghost function Current(msgs: seq<Msg>): State
      reads this, BufferSet(msgs)
    {
      State(Hardware(), Contents(msgs), irqEnabled, locked)
    }

    lemma ContentsFit(msgs: seq<Msg>, k: nat)
      requires forall i :: 0 <= i < |msgs| ==> msgs[i].length <= msgs[i].buffer.Length
      requires k <= |msgs|
      ensures Fits(Contents(msgs), msgs[k..])
    {
      forall i | 0 <= i < |msgs| - k
        ensures msgs[k..][i].buffer in Contents(msgs) && msgs[k..][i].length <= |Contents(msgs)[msgs[k..][i].buffer]|
      {
        assert msgs[k..][i] == msgs[k + i];
        assert msgs[k + i].buffer in BufferSet(msgs);
      }
    }

    /** Buffers whose contents are as they were give the same buffer map. */
    twostate lemma BuffersKept(msgs: seq<Msg>)
      requires forall b | b in BufferSet(msgs) :: b[..] == old(b[..])
      ensures Contents(msgs) == old(Contents(msgs))
    {
    }

    /** When only buffer a differs from the map before, the buffer map is
        before updated at a. */
    lemma OneBufferChanged(msgs: seq<Msg>, a: array<Byte>, before: Buffers)
      requires a in BufferSet(msgs) && before.Keys == BufferSet(msgs)
      requires forall b | b in BufferSet(msgs) && b != a :: b[..] == before[b]
      ensures Contents(msgs) == before[a := a[..]]
    {
    }

    /** `write32(base + reg, v)`. */
    method Write32(reg: nat, v: Word)
      modifies this`regs, this`trace
      ensures Hardware() == AfterWrite(old(Hardware()), reg, v)
    {
      regs := regs[reg := v];
      trace := trace + [Write(reg, v)];
    }

    /** `read32(base + reg)`: SR1 and DR deliver their next values. */
    method Read32(reg: nat) returns (v: Word)
      modifies this`trace, this`sr1Feed, this`rxFeed
      ensures v == ReadValue(old(Hardware()), reg)
      ensures Hardware() == AfterRead(old(Hardware()), reg)
    {
      if reg == SR1 {
        v := if sr1Feed == [] then 0 else sr1Feed[0];
        sr1Feed := Drop1(sr1Feed);
      } else if reg == DR {
        v := if rxFeed == [] then 0 else rxFeed[0];
        rxFeed := Drop1(rxFeed);
      } else {
        v := if reg in regs then regs[reg] else 0;
      }
      trace := trace + [Read(reg, v)];
    }

    /** `stm32_i2c_set_freq`.  The clock is dereferenced only on the
        accepted path; a zero frequency would divide by zero. */
    method SetFreq(freq: u32) returns (ret: int)
      requires freq > 0 && (freq <= FastModeMaxFreq ==> pdata.Some?)
      modifies this`regs, this`trace, this`sr1Feed, this`rxFeed
      ensures (Hardware(), ret) == I2cTiming.SetFreq(old(Hardware()), Clock(), freq)
    {
      ghost var h := Hardware();
      var cr1 := Read32(CR1);
      Write32(CR1, 0);
      ghost var h1 := Hardware();
      assert h1 == AfterWrite(AfterRead(h, CR1), CR1, 0);
      if freq > FastModeMaxFreq {
        ret := -EINVAL;
      } else {
        var speed := SpeedGrade(freq);
        var ccr := CcrDivider(pdata.value.clk, freq);
        Write32(CCR, speed | ccr);
        var trise := RiseTime(pdata.value.clk, freq);
        Write32(TRISE, trise);
        assert Hardware() == AfterWrite(AfterWrite(h1, CCR, CcrValue(Clock(), freq)), TRISE, RiseTime(Clock(), freq));
        ret := 0;
      }
      Write32(CR1, cr1);
    }

    /** `stm32_i2c_generate_start_condition`. */
    method GenerateStartCondition() returns (ret: int)
      modifies this`regs, this`trace, this`sr1Feed, this`rxFeed
      ensures (Hardware(), ret) == StartCondition(old(Hardware()))
    {
      Write32(CR1, Cr1Pe | Cr1Start);
      var sr1 := Read32(SR1);
      if sr1 & Sr1ErrorMask != 0 {
        return -EIO;
      }
      return 0;
    }

    /** `stm32_i2c_generate_stop_condition`. */
    method GenerateStopCondition()
      modifies this`regs, this`trace
      ensures Hardware() == StopCondition(old(Hardware()))
    {
      Write32(CR1, Cr1Pe | Cr1Stop);
    }

    /** `stm32_i2c_send_rx_address`. */
    method SendRxAddress(addr: bv16) returns (ret: int)
      modifies this`regs, this`trace, this`sr1Feed, this`rxFeed
      ensures (Hardware(), ret) == AddressPhase(old(Hardware()), AddressByte(addr, true))
    {
      Write32(DR, (addr as Word << 1) | 1);
      var sr1 := Read32(SR1);
      if sr1 & Sr1ErrorMask != 0 {
        return -EIO;
      }
      var _ := Read32(SR2);
      return 0;
    }

    /** `stm32_i2c_send_tx_address`. */
    method SendTxAddress(addr: bv16) returns (ret: int)
      modifies this`regs, this`trace, this`sr1Feed, this`rxFeed
      ensures (Hardware(), ret) == AddressPhase(old(Hardware()), AddressByte(addr, false))
    {
      Write32(DR, addr as Word << 1);
      var sr1 := Read32(SR1);
      if sr1 & Sr1ErrorMask != 0 {
        return -EIO;
      }
      var _ := Read32(SR2);
      return 0;
    }

    /** The read loop of `stm32_i2c_recv`: n consecutive DR reads, each
        stored as a byte into buf[0..n) in place. */
    method ReadBytes(buf: array<Byte>, n: nat)
      requires n <= buf.Length
      modifies this`trace, this`sr1Feed, this`rxFeed, buf
      ensures var d := RecvData(old(Hardware()), n);
        Hardware() == d.0 && buf[..] == d.1 + old(buf[..])[n..]
    {
      ghost var h0 := Hardware();
      for i := 0 to n
        invariant Hardware() == RecvData(h0, i).0 && |RecvData(h0, i).1| == i
        invariant buf[..] == RecvData(h0, i).1 + old(buf[..])[i..]
      {
        RecvDataSnoc(h0, i);
        UpdateAfter(RecvData(h0, i).1, old(buf[..])[i..], LowByte(ReadValue(Hardware(), DR)));
        assert old(buf[..])[i..][1..] == old(buf[..])[i + 1..];
        ReadInto(buf, i);
      }
    }

    /** One pass of the read loop: a DR read stored, as a byte, at buf[i]. */
    method ReadInto(buf: array<Byte>, i: nat)
      requires i < buf.Length
      modifies this`trace, this`sr1Feed, this`rxFeed, buf
      ensures Hardware() == AfterRead(old(Hardware()), DR)
      ensures buf[..] == old(buf[..])[i := LowByte(ReadValue(old(Hardware()), DR))]
    {
      var v := Read32(DR);
      buf[i] := LowByte(v);
    }

    /** `stm32_i2c_recv`: the read address, then the message's buffer is
        filled in place from consecutive DR reads. */
    method Recv(m: Msg) returns (ret: int)
      requires m.length <= m.buffer.Length
      modifies this`regs, this`trace, this`sr1Feed, this`rxFeed, m.buffer
      ensures var p := RecvPhase(old(Hardware()), m.addr, m.length);
        Hardware() == p.0 && ret == p.1 &&
        m.buffer[..] == if ret == 0 then p.2 + old(m.buffer[..])[m.length..] else old(m.buffer[..])
    {
      ret := SendRxAddress(m.addr);
      if ret != 0 {
        return;
      }
      ReadBytes(m.buffer, m.length);
    }

    /** The TXE spin of `stm32_i2c_send`: read SR1 until TXE is set.  When
        the status values run out without TXE the source would spin for
        ever; the method then stops and answers true. */
    method AwaitTxe() returns (spins: bool)
      modifies this`trace, this`sr1Feed, this`rxFeed
      ensures (Hardware(), spins) == WaitTxe(old(Hardware()))
    {
      var txe := false;
      while !txe
        invariant !txe ==> WaitTxe(Hardware()) == WaitTxe(old(Hardware()))
        invariant txe ==> WaitTxe(old(Hardware())) == (Hardware(), false)
        decreases |sr1Feed|
      {
        if sr1Feed == [] {
          return true;
        }
        var sr1 := Read32(SR1);
        txe := sr1 & Sr1Txe != 0;
      }
      return false;
    }

    /** The write loop of `stm32_i2c_send`: for each byte of buf[0..n), a
        TXE spin and a DR write. */
    method WriteBytes(buf: array<Byte>, n: nat) returns (spins: bool)
      requires n <= buf.Length
      modifies this`regs, this`trace, this`sr1Feed, this`rxFeed
      ensures (Hardware(), spins) == SendData(old(Hardware()), buf[..n])
    {
      ghost var data := buf[..n];
      for i := 0 to n
        invariant SendData(Hardware(), data[i..]) == SendData(old(Hardware()), data)
      {
        assert data[i..][0] == data[i] && data[i..][1..] == data[i + 1..];
        spins := AwaitTxe();
        if spins {
          return;
        }
        Write32(DR, buf[i] as Word);
      }
      assert data[n..] == [];
      return false;
    }

    /** `stm32_i2c_send`: interrupts off, the write address (returning at
        once on error, with interrupts still off), then for each byte a spin
        on TXE and a DR write, and interrupts back on.  A spin whose status
        values run out without TXE is a wait that never ends; the method
        then stops with SpinsForever. */
    method Send(m: Msg) returns (end: Ending)
      requires m.length <= m.buffer.Length
      modifies this`regs, this`trace, this`sr1Feed, this`rxFeed, this`irqEnabled
      ensures var p := SendPhase(old(Hardware()), m.addr, m.buffer[..m.length]);
        Hardware() == p.0 && end == p.1 && irqEnabled == (end == Returns(0))
    {
      irqEnabled := false;
      var ret := SendTxAddress(m.addr);
      if ret != 0 {
        return Returns(ret);
      }
      var spins := WriteBytes(m.buffer, m.length);
      if spins {
        return SpinsForever;
      }
      irqEnabled := true;
      return Returns(0);
    }

    /** `stm32_i2c_recv` for message i of a list, seen on the list's
        buffers: only message i's buffer can change. */
    method RecvMessage(msgs: seq<Msg>, i: nat) returns (ret: int)
      requires i < |msgs| && msgs[i].length <= msgs[i].buffer.Length
      modifies this`regs, this`trace, this`sr1Feed, this`rxFeed, msgs[i].buffer
      ensures msgs[i].buffer in old(Contents(msgs))
      ensures var p := RecvPhase(old(Hardware()), msgs[i].addr, msgs[i].length);
        Hardware() == p.0 && ret == p.1 &&
        Contents(msgs) == if ret == 0 then old(Contents(msgs))[msgs[i].buffer := p.2 + old(msgs[i].buffer[..])[msgs[i].length..]]
                          else old(Contents(msgs))
    {
      var m := msgs[i];
      assert m.buffer in BufferSet(msgs);
      ghost var before := Contents(msgs);
      ret := Recv(m);
      if ret != 0 {
        assert m.buffer[..] == old(m.buffer[..]);
      } else {
        OneBufferChanged(msgs, m.buffer, before);
      }
    }

    /** `stm32_i2c_send` for message i of a list, seen on the list's
        buffers: none of them changes. */
    method SendMessage(msgs: seq<Msg>, i: nat) returns (end: Ending)
      requires i < |msgs| && msgs[i].length <= msgs[i].buffer.Length
      modifies this`regs, this`trace, this`sr1Feed, this`rxFeed, this`irqEnabled
      ensures msgs[i].buffer in old(Contents(msgs))
      ensures var p := SendPhase(old(Hardware()), msgs[i].addr, old(Contents(msgs))[msgs[i].buffer][..msgs[i].length]);
        Current(msgs) == old(Current(msgs)).(hw := p.0, irqOn := p.1 == Returns(0)) && end == p.1
    {
      var m := msgs[i];
      assert m.buffer in BufferSet(msgs);
      assert old(Contents(msgs))[m.buffer] == m.buffer[..];
      end := Send(m);
    }

    /** One turn of the loop of `stm32_i2c_transfer`, for message i: the
        repeated start condition, then `stm32_i2c_recv` or `stm32_i2c_send`
        as the direction says. */
    method RunMessage(msgs: seq<Msg>, i: nat) returns (end: Ending)
      requires i < |msgs| && msgs[i].length <= msgs[i].buffer.Length
      modifies this`regs, this`trace, this`sr1Feed, this`rxFeed, this`irqEnabled, msgs[i].buffer
      ensures msgs[i].buffer in old(Contents(msgs)) && msgs[i].length <= |old(Contents(msgs))[msgs[i].buffer]|
      ensures (Current(msgs), end) == StepMsg(old(Current(msgs)), msgs[i])
    {
      var m := msgs[i];
      assert m.buffer in BufferSet(msgs);
      ghost var e := old(Current(msgs));
      var ret := GenerateStartCondition();
      ghost var s := StartCondition(e.hw);
      assert Current(msgs) == e.(hw := s.0) && ret == s.1;
      if ret != 0 {
        return Returns(ret);
      }
      if m.isRead {
        ret := RecvMessage(msgs, i);
        end := Returns(ret);
        ghost var p := RecvPhase(s.0, m.addr, m.length);
        assert Current(msgs).hw == p.0 && ret == p.1;
      } else {
        end := SendMessage(msgs, i);
      }
    }

    /** The loop of `stm32_i2c_transfer`: the messages in index order,
        leaving at the first one that does not complete. */
    method RunMessages(msgs: seq<Msg>) returns (end: Ending)
      requires forall i :: 0 <= i < |msgs| ==> msgs[i].length <= msgs[i].buffer.Length
      modifies this`regs, this`trace, this`sr1Feed, this`rxFeed, this`irqEnabled, BufferSet(msgs)
      ensures Fits(old(Contents(msgs)), msgs)
      ensures (Current(msgs), end) == Loop(old(Current(msgs)), msgs)
    {
      ContentsFit(msgs, 0);
      end := Returns(0);
      var i := 0;
      assert msgs[i..] == msgs;
      while i < |msgs|
        invariant 0 <= i <= |msgs| && end == Returns(0)
        invariant Fits(Current(msgs).bufs, msgs[i..])
        invariant Loop(Current(msgs), msgs[i..]) == Loop(old(Current(msgs)), msgs)
      {
        LoopStep(Current(msgs), msgs, i);
        assert msgs[i].buffer in BufferSet(msgs);
        end := RunMessage(msgs, i);
        if end != Returns(0) {
          break;
        }
        ContentsFit(msgs, i + 1);
        i := i + 1;
      }
    }

    /** `stm32_i2c_transfer`: nothing for an empty list; otherwise take the
        mutex, run the messages, then issue the stop condition and release
        the mutex.  A TXE wait that never ends leaves everything as it was
        at that moment. */
    method Transfer(msgs: seq<Msg>) returns (end: Ending)
      requires |msgs| > 0 ==> priv == Allocated
      requires forall i :: 0 <= i < |msgs| ==> msgs[i].length <= msgs[i].buffer.Length
      modifies this`regs, this`trace, this`sr1Feed, this`rxFeed, this`irqEnabled, this`locked, BufferSet(msgs)
      ensures Fits(old(Contents(msgs)), msgs)
      ensures (Current(msgs), end) == I2cTransfer.Transfer(old(Current(msgs)), msgs)
    {
      ContentsFit(msgs, 0);
      if |msgs| == 0 {
        return Returns(0);
      }
      ghost var e := old(Current(msgs));
      locked := true;
      assert Current(msgs) == e.(locked := true);
      end := RunMessages(msgs);
      TransferUnfolds(e, msgs);
      ghost var l := Loop(e.(locked := true), msgs);
      assert (Current(msgs), end) == l;
      if end == SpinsForever {
        return;
      }
      ghost var c := Current(msgs);
      FinishTransfer(msgs);
      assert Current(msgs) == c.(hw := StopCondition(c.hw), locked := false);
    }

    /** The end of `stm32_i2c_transfer` over a non-empty list: the stop
        condition, then the mutex is released. */
    method FinishTransfer(msgs: seq<Msg>)
      modifies this`regs, this`trace, this`locked
      ensures Current(msgs) == old(Current(msgs)).(hw := StopCondition(old(Hardware())), locked := false)
    {
      GenerateStopCondition();
      locked := false;
      BuffersKept(msgs);
    }

    /** `stm32_i2c_open`: fails with -EINVAL without platform data and with
        -ENOMEM when the private allocation fails (an outcome the model
        leaves open); otherwise programs the controller and returns 0. */
    method Open() returns (ret: int)
      modifies this`regs, this`trace, this`sr1Feed, this`rxFeed, this`priv
      ensures ret == -EINVAL <==> pdata.None?
      ensures ret == 0 || ret == -EINVAL || ret == -ENOMEM
      ensures ret == -EINVAL ==> Hardware() == old(Hardware()) && priv == old(priv)
      ensures ret == -ENOMEM ==> Hardware() == old(Hardware()) && priv == NoPriv
      ensures ret == 0 ==> Hardware() == OpenRegisters(old(Hardware()), Clock()) && priv == Allocated
    {
      if pdata.None? {
        return -EINVAL;
      }
      var granted: bool :| true;
      if !granted {
        priv := NoPriv;
        return -ENOMEM;
      }
      priv := Allocated;
      Write32(CR1, 0);
      Write32(CR2, Cr2Value(pdata.value.clk));
      var _ := SetFreq(StdModeMaxFreq);
      Write32(CR1, Cr1Pe);
      return 0;
    }

    /** `stm32_i2c_close`: disable the controller and free the private
        allocation (freeing a null one does nothing). */
    method Close() returns (ret: int)
      requires priv != Freed
      modifies this`regs, this`trace, this`priv
      ensures ret == 0
      ensures Hardware() == AfterWrite(old(Hardware()), CR1, 0)
      ensures priv == if old(priv) == Allocated then Freed else old(priv)
    {
      Write32(CR1, 0);
      if priv == Allocated {
        priv := Freed;
      }
      return 0;
    }

    /** `stm32_i2c_ioctl`: dispatch, then discard the result: every request
        that returns yields 0. */
    method Ioctl(req: Request) returns (end: Ending)
      requires req.TransferRequest? ==>
        (|req.msgs| > 0 ==> priv == Allocated) &&
        forall i :: 0 <= i < |req.msgs| ==> req.msgs[i].length <= req.msgs[i].buffer.Length
      requires req.SetFrequencyRequest? ==> req.freq > 0 && (req.freq <= FastModeMaxFreq ==> pdata.Some?)
      modifies this`regs, this`trace, this`sr1Feed, this`rxFeed, this`irqEnabled, this`locked
      modifies if req.TransferRequest? then BufferSet(req.msgs) else {}
      ensures end == Returns(0) || (req.TransferRequest? && end == SpinsForever)
      ensures req.TransferRequest? ==>
        (Fits(old(Contents(req.msgs)), req.msgs) &&
         var r := I2cTransfer.Transfer(old(Current(req.msgs)), req.msgs);
         Current(req.msgs) == r.0 && (end == SpinsForever <==> r.1 == SpinsForever))
      ensures req.SetFrequencyRequest? ==>
        Hardware() == I2cTiming.SetFreq(old(Hardware()), Clock(), req.freq).0 &&
        irqEnabled == old(irqEnabled) && locked == old(locked)
      ensures req.OtherRequest? ==>
        Hardware() == old(Hardware()) && irqEnabled == old(irqEnabled) && locked == old(locked)
    {
      match req
      case TransferRequest(msgs) =>
        end := Transfer(msgs);
        if end != SpinsForever {
          end := Returns(0);
        }
      case SetFrequencyRequest(freq) =>
        var _ := SetFreq(freq);
        end := Returns(0);
      case OtherRequest(_) =>
        end := Returns(0);
    }
  }
}
