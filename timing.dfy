/** The timing configurator: the clock-control (CCR) and rise-time (TRISE)
    values derived from the controller's input clock and a requested bus
    frequency, and the register effects of `stm32_i2c_set_freq`. */
module I2cTiming {
  import opened Errno
  import opened I2cRegisters

  /** A bus frequency the divider formula can be applied to: a non-zero
      32-bit value (the source divides by it unguarded). */
  type Freq = x: nat | 0 < x < 0x1_0000_0000 witness 1

  // Speed-grade ceilings in Hz: standard mode and fast mode of the I2C bus.
  const StdModeMaxFreq: nat := 100_000
  const FastModeMaxFreq: nat := 400_000

  const OneMhz: nat := 1_000_000

  // Inverse rise times (1 / 300 ns and 1 / 1000 ns) in Hz.
  const FastModeInvT: nat := 3_333_333
  const StdModeInvT: nat := 1_000_000

  /** The condition that selects the 16/9 duty-cycle divider is conjoined
      with a constant false in the source, so that formula is never used. */
  const DutyCycleSelected: bool := false

  lemma DivIsAtMost(a: nat, b: nat)
    requires b > 0
    ensures a / b <= a
  {
    var d := a / b;
    FloorDivision(a, b, d);
    assert d * b == d + d * (b - 1);
  }

  /** Lemma: for b > 0, d == a / b is the largest d with d * b <= a. */
  lemma {:induction false} FloorDivision(a: nat, b: nat, d: nat)
    requires b > 0 && d == a / b
    ensures d * b <= a < (d + 1) * b
  {
    assert a == b * d + a % b;
    assert 0 <= a % b < b;
    assert (d + 1) * b == d * b + b;
  }

  /** The divider count input_clock / (3 * freq), floor division on unsigned
      values; below the fast-mode ceiling `freq * 3` cannot wrap. */
  function ClockDivider(clk: u32, freq: Freq): (d: nat)
    requires freq <= FastModeMaxFreq
    ensures d <= clk
    ensures d * (freq * 3) <= clk < (d + 1) * (freq * 3)
  {
    DivIsAtMost(clk, freq * 3);
    FloorDivision(clk, freq * 3, clk / (freq * 3));
    clk / (freq * 3)
  }

  /** The count of the duty-cycle formula, clk / (25 freq). */
  function DutyCount(clk: u32, freq: Freq): (d: nat)
    ensures d <= clk
    ensures d * (freq * 25) <= clk < (d + 1) * (freq * 25)
  {
    DivIsAtMost(clk, freq * 25);
    FloorDivision(clk, freq * 25, clk / (freq * 25));
    clk / (freq * 25)
  }

  /** The duty-cycle (16/9) divider formula of the disabled branch: the
      DUTY bit is always set, and every other bit is the count's. */
  function DutyCycleDivider(clk: u32, freq: Freq): (ccr: Word)
    ensures ccr & CcrDuty != 0
    ensures ccr & !CcrDuty == DutyCount(clk, freq) as Word & !CcrDuty
  {
    DutyCount(clk, freq) as Word | CcrDuty
  }

  /** The divider field the source computes: the duty-cycle formula's guard
      never holds, so the result is always the plain divider count and the
      duty-cycle bit is never OR'd in. */
  function CcrDivider(clk: u32, freq: Freq): (ccr: Word)
    requires freq <= FastModeMaxFreq
    ensures ccr == ClockDivider(clk, freq) as Word
  {
    if freq == FastModeMaxFreq && DutyCycleSelected then DutyCycleDivider(clk, freq)
    else ClockDivider(clk, freq) as Word
  }

  /** The speed-grade bit: fast mode exactly above the standard-mode ceiling. */
  function SpeedGrade(freq: nat): (speed: Word)
    ensures speed == CcrFastMode <==> freq > StdModeMaxFreq
    ensures speed == CcrStdMode <==> freq <= StdModeMaxFreq
  {
    if freq > StdModeMaxFreq then CcrFastMode else CcrStdMode
  }

  /** The value written to CCR: speed-grade bit OR divider field. */
  function CcrValue(clk: u32, freq: Freq): (ccr: Word)
    requires freq <= FastModeMaxFreq
    ensures ccr == SpeedGrade(freq) | ClockDivider(clk, freq) as Word
  {
    SpeedGrade(freq) | CcrDivider(clk, freq)
  }

  /** One more than the number of whole periods 1/invT in clk cycles: the
      smallest n with clk < n * invT. */
  function RiseCycles(clk: u32, invT: nat): (n: nat)
    requires invT > 1
    ensures 1 <= n < 0x1_0000_0000
    ensures (n - 1) * invT <= clk < n * invT
  {
    var d := clk / invT;
    FloorDivision(clk, invT, d);
    assert d * invT == d + d * (invT - 1);
    d + 1
  }

  /** The rise-time value, with both of the source's branches: the rise
      cycles of 300 ns above the fast-mode ceiling, of 1000 ns otherwise. */
  function RiseTime(clk: u32, freq: nat): (t: Word)
    ensures t == RiseCycles(clk, if freq > FastModeMaxFreq then FastModeInvT else StdModeInvT) as Word
  {
    if freq > FastModeMaxFreq then (clk / FastModeInvT + 1) as Word
    else (clk / StdModeInvT + 1) as Word
  }

  /** The standard-mode rise time, the only one `set_freq` ever writes: the
      rise time of every frequency `set_freq` accepts. */
  function StdRiseTime(clk: u32): (t: Word)
    ensures forall freq: nat :: freq <= FastModeMaxFreq ==> t == RiseTime(clk, freq)
    ensures t == RiseCycles(clk, StdModeInvT) as Word
  {
    (clk / StdModeInvT + 1) as Word
  }

  /** When the divider fits below the duty-cycle bit, CCR splits cleanly:
      the duty-cycle bit is clear, the speed-grade bit is set exactly in fast
      mode, and the low 14 bits are the divider count. */
  lemma CcrFields(clk: u32, freq: Freq)
    requires freq <= FastModeMaxFreq
    requires CcrDivider(clk, freq) < 0x4000
    ensures CcrValue(clk, freq) & CcrDuty == 0
    ensures CcrValue(clk, freq) & CcrFastMode != 0 <==> freq > StdModeMaxFreq
    ensures CcrValue(clk, freq) & 0x3fff == ClockDivider(clk, freq) as Word
  {
  }

  lemma WordRoundTrip(w: Word)
    ensures (w as int) as Word == w
  {
  }

  /** Nothing bounds the count: at 500 Hz on a 42 MHz clock it is 28000
      (0x6d60), which sets CCR's DUTY bit although the duty-cycle formula is
      dead. */
  lemma SlowCountSetsDuty()
    ensures CcrValue(42_000_000, 500) == 0x6d60
    ensures CcrValue(42_000_000, 500) & CcrDuty != 0
  {
    assert ClockDivider(42_000_000, 500) == 28_000;
    WordRoundTrip(0x6d60);
    assert ClockDivider(42_000_000, 500) == (0x6d60 as Word) as int;
  }

  /** At 400 Hz on a 42 MHz clock the count is 35000 (0x88b8), which sets
      CCR's fast-mode bit although the frequency is standard mode. */
  lemma SlowCountSetsFastMode()
    ensures SpeedGrade(400) == CcrStdMode
    ensures CcrValue(42_000_000, 400) == 0x88b8
    ensures CcrValue(42_000_000, 400) & CcrFastMode != 0
  {
    assert ClockDivider(42_000_000, 400) == 35_000;
    WordRoundTrip(0x88b8);
    assert ClockDivider(42_000_000, 400) == (0x88b8 as Word) as int;
  }

  /** `stm32_i2c_set_freq` on the hardware value h, for input clock clk:
      save CR1 and clear it, reject frequencies above the fast-mode ceiling,
      otherwise program CCR and TRISE, and in every case write the saved CR1
      back.  The pair is the new hardware and the return code. */
  function SetFreq(h: Hw, clk: u32, freq: u32): (r: (Hw, int))
    requires freq > 0
    ensures r.0.sr1 == h.sr1 && r.0.rx == h.rx
    ensures RegValue(r.0, CR1) == RegValue(h, CR1)
    ensures r.1 == 0 || r.1 == -EINVAL
    ensures r.1 == -EINVAL <==> freq > FastModeMaxFreq
    ensures freq > FastModeMaxFreq ==>
      r.0.trace == h.trace + [Read(CR1, RegValue(h, CR1)), Write(CR1, 0), Write(CR1, RegValue(h, CR1))] &&
      forall reg :: reg != CR1 ==> RegValue(r.0, reg) == RegValue(h, reg)
    ensures freq <= FastModeMaxFreq ==>
      RegValue(r.0, CCR) == CcrValue(clk, freq) &&
      RegValue(r.0, TRISE) == StdRiseTime(clk) &&
      r.0.trace == h.trace + [Read(CR1, RegValue(h, CR1)), Write(CR1, 0),
                              Write(CCR, CcrValue(clk, freq)), Write(TRISE, StdRiseTime(clk)),
                              Write(CR1, RegValue(h, CR1))] &&
      forall reg :: reg != CR1 && reg != CCR && reg != TRISE ==> RegValue(r.0, reg) == RegValue(h, reg)
  {
    var cr1 := ReadValue(h, CR1);
    var h1 := AfterWrite(AfterRead(h, CR1), CR1, 0);
    if freq > FastModeMaxFreq then
      (AfterWrite(h1, CR1, cr1), -EINVAL)
    else
      var h2 := AfterWrite(h1, CCR, CcrValue(clk, freq));
      var h3 := AfterWrite(h2, TRISE, RiseTime(clk, freq));
      (AfterWrite(h3, CR1, cr1), 0)
  }

  /** The board's 42 MHz APB1 clock at 100 kHz gives CCR = 140 (standard
      mode) and TRISE = 43. */
  lemma BoardClockAt100kHz()
    ensures CcrValue(42_000_000, 100_000) == 140
    ensures StdRiseTime(42_000_000) == 43
    ensures RiseTime(42_000_000, 100_000) == 43
  {
    assert ClockDivider(42_000_000, 100_000) == 140;
    assert 42_000_000 / StdModeInvT + 1 == 43;
  }

  /** The same clock at the fast-mode ceiling: fast-mode bit, divider 35. */
  lemma BoardClockAt400kHz()
    ensures CcrValue(42_000_000, 400_000) == CcrFastMode | 35
    ensures RiseTime(42_000_000, 400_000) == 43
  {
    assert ClockDivider(42_000_000, 400_000) == 35;
    assert 42_000_000 / StdModeInvT + 1 == 43;
  }
}
