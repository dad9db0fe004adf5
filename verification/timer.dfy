/**
 * Timer driver: `timer_init`, the configuration validator of timer 0.
 *
 * The call checks a caller-owned configuration record field by field and
 * programs the waveform-generation (WGM) and compare-output (COM) bits of
 * TCCR0 as it goes, so a rejection part-way leaves the earlier writes in
 * place. On acceptance it may rewrite the caller's pin function and drive
 * the OC0 pin (PB3) to output through the GPIO driver.
 */
module Timer {
  import opened McDriver
  import Gpio

  // timer_id_t
  const Timer0: nat := 0
  const Timer1: nat := 1
  const Timer2: nat := 2
  const TimerMaxId: nat := 3

  // The one timer-0 mode name the mode enumeration declares.
  const TimerNormalMode: nat := 0

  /** The values of the other three mode names timer_init accepts on timer 0.
      No header declares them, so the model takes them as parameters; the
      enumeration they belong to only needs them to be distinct. */
  datatype ModeCodes = ModeCodes(phaseCorrectPwm: nat, compareMatch: nat, fastPwm: nat) {
    predicate Distinct() {
      && TimerNormalMode != phaseCorrectPwm && TimerNormalMode != compareMatch
      && TimerNormalMode != fastPwm && phaseCorrectPwm != compareMatch
      && phaseCorrectPwm != fastPwm && compareMatch != fastPwm
    }
  }

  // timer_Pin_func_t, with the blank enumerator read as the reserved value
  const TimerPinNotUsed: nat := 0
  const TimerTogglePin: nat := 1
  const TimerClearPin: nat := 2
  const TimerSetPin: nat := 3
  const TimerNonInvertingOutput: nat := 4
  const TimerReservedPinFuncValue: nat := 5
  const TimerInvertingOutput: nat := 6
  const TimerMaxPinFunc: nat := 7

  /** Largest value the 2-bit COM field holds. */
  const MaxPinFunctionAcceptedValue: nat := 3

  /** `timer_cfg_S`. The callback is an opaque function-pointer identity. */
  datatype TimerConfig = TimerConfig(
    id: nat, mode: nat, pinFunc: nat, tech: nat, interruptStatus: nat, callback: nat)

  /** TCCR0 as its fields: force output compare, the two WGM bits, the two
      COM bits and the clock select. */
  datatype Tccr0 = Tccr0(foc: bv1, wgm0: bv1, com1: bv1, com0: bv1, wgm1: bv1, cs: bv3)

  /** The registers timer_init touches: the interrupt mask TIMSK, TCCR0, and
      the GPIO registers it reaches through GPIO_set_pin_mode. */
  datatype TimerRegs = TimerRegs(timsk: bv8, tccr0: Tccr0, gpio: Gpio.GpioRegs)

  /** The status, the caller's configuration record afterwards (None for a
      NULL pointer), and the registers afterwards. */
  datatype InitResult = InitResult(status: Status, config: Option<TimerConfig>, regs: TimerRegs)

  /** GET_BIT: bit `b` of `v`. */
  function GetBit(v: nat, b: nat): bv1
    decreases b
  {
    if b == 0 then (if v % 2 == 1 then 1 else 0) else GetBit(v / 2, b - 1)
  }

  predicate IsPwmMode(codes: ModeCodes, mode: nat) {
    mode == codes.fastPwm || mode == codes.phaseCorrectPwm
  }

  /** The four modes timer_init accepts for timer 0. */
  predicate AcceptedOnTimer0(codes: ModeCodes, mode: nat) {
    mode == TimerNormalMode || mode == codes.phaseCorrectPwm
    || mode == codes.compareMatch || mode == codes.fastPwm
  }

  /**
   * timer_init. Checks, in this order: NULL pointer; id; (timer 0 only) mode;
   * pin-function range; reserved value; mode / pin-function compatibility.
   * TIMSK is cleared before any check but the NULL one, and the WGM bits are
   * written before the pin function is checked.
   */
  function TimerInit(codes: ModeCodes, cfg: Option<TimerConfig>, regs: TimerRegs): (r: InitResult)
    ensures cfg.None? ==> r.status == PtrUsedIsNullPtr && r.regs == regs && r.config == cfg
    ensures cfg.Some? ==>
              && r.regs.timsk == 0
              && r.config.Some? && r.config == Some(cfg.value.(pinFunc := r.config.value.pinFunc))
              && r.regs.tccr0.cs == regs.tccr0.cs && r.regs.tccr0.foc == regs.tccr0.foc
    ensures r.status != DriverIsOk ==> r.config == cfg
    ensures cfg.Some? && cfg.value.id == Timer0 && r.status == DriverIsOk ==>
              r.config.value.pinFunc <= MaxPinFunctionAcceptedValue
  {
    if cfg.None? then
      InitResult(PtrUsedIsNullPtr, cfg, regs)
    else
      var c := cfg.value;
      var masked := regs.(timsk := 0);
      if c.id >= TimerMaxId then
        InitResult(ValueIsNotExisted, cfg, masked)
      else if c.id != Timer0 then
        InitResult(DriverIsOk, cfg, masked)
      else if !AcceptedOnTimer0(codes, c.mode) then
        InitResult(ValueIsNotAcceptedForThisDriver, cfg, masked)
      else
        var moded := masked.(tccr0 := masked.tccr0.(wgm0 := GetBit(c.mode, 0), wgm1 := GetBit(c.mode, 3)));
        if c.pinFunc >= TimerMaxPinFunc then
          InitResult(ValueIsNotExisted, cfg, moded)
        else if IsPwmMode(codes, c.mode) && c.pinFunc == TimerReservedPinFuncValue then
          InitResult(ValueIsReserved, cfg, moded)
        else if || (c.mode == TimerNormalMode && c.pinFunc != TimerPinNotUsed)
                || (c.mode == codes.compareMatch && c.pinFunc > TimerSetPin)
                || (IsPwmMode(codes, c.mode) && TimerTogglePin <= c.pinFunc <= TimerSetPin) then
          InitResult(ValueIsNotCompatibleWithOtherConfigurations, cfg, moded)
        else
          var pinFunc :=
            if c.pinFunc > MaxPinFunctionAcceptedValue then c.pinFunc - MaxPinFunctionAcceptedValue
            else c.pinFunc;
          // the GPIO status is ignored
          var gpio :=
            if pinFunc != TimerPinNotUsed then Gpio.SetPinMode(moded.gpio, Gpio.PortB, Gpio.Pin3, Gpio.PinOutput).state
            else moded.gpio;
          var done := moded.(gpio := gpio, tccr0 := moded.tccr0.(com0 := GetBit(pinFunc, 0), com1 := GetBit(pinFunc, 1)));
          InitResult(DriverIsOk, Some(c.(pinFunc := pinFunc)), done)
  }

  /** GET_BIT at the positions timer_init uses, as arithmetic on the value. */
  lemma {:induction false} GetBitValues(v: nat)
    ensures GetBit(v, 0) as int == v % 2
    ensures GetBit(v, 1) as int == (v / 2) % 2
    ensures GetBit(v, 3) as int == (v / 8) % 2
  {
    var q := v / 2 / 2;
    assert q == v / 4;
    assert q / 2 == v / 8;
    assert GetBit(v, 3) == GetBit(v / 2, 2) == GetBit(q, 1) == GetBit(q / 2, 0);
  }

  // ---------------------------------------------------------------------------
  // Reference definition of the timer-0 compatibility table

  datatype Timer0Mode = Normal | PhaseCorrectPwm | CompareMatch | FastPwm

  /** Which timer-0 mode a mode value names, if any. */
  function Classify(codes: ModeCodes, mode: nat): Option<Timer0Mode> {
    if mode == TimerNormalMode then Some(Normal)
    else if mode == codes.phaseCorrectPwm then Some(PhaseCorrectPwm)
    else if mode == codes.compareMatch then Some(CompareMatch)
    else if mode == codes.fastPwm then Some(FastPwm)
    else None
  }

  /** The pin functions each mode accepts: normal mode leaves the pin unused,
      compare-match mode drives it as toggle / clear / set, the PWM modes as
      non-inverting or inverting output. */
  function CompatiblePinFunctions(k: Timer0Mode): set<nat> {
    match k
    case Normal => {TimerPinNotUsed}
    case CompareMatch => {TimerPinNotUsed, TimerTogglePin, TimerClearPin, TimerSetPin}
    case PhaseCorrectPwm => {TimerPinNotUsed, TimerNonInvertingOutput, TimerInvertingOutput}
    case FastPwm => {TimerPinNotUsed, TimerNonInvertingOutput, TimerInvertingOutput}
  }

  /** Ids from TIMER_MAX_ID on are rejected; timers 1 and 2 are accepted
      without being configured. Either way the only register change is the
      cleared interrupt mask, and the caller's record is unchanged. */
  lemma {:induction false} OtherTimerIds(codes: ModeCodes, c: TimerConfig, regs: TimerRegs)
    requires c.id != Timer0
    ensures var r := TimerInit(codes, Some(c), regs);
            && r.status == (if c.id >= TimerMaxId then ValueIsNotExisted else DriverIsOk)
            && r.regs == regs.(timsk := 0)
            && r.config == Some(c)
  {
  }

  /** A mode timer 0 does not support is rejected before TCCR0 is written. */
  lemma {:induction false} UnsupportedModeLeavesTccr0(codes: ModeCodes, c: TimerConfig, regs: TimerRegs)
    requires c.id == Timer0 && Classify(codes, c.mode).None?
    ensures var r := TimerInit(codes, Some(c), regs);
            r.status == ValueIsNotAcceptedForThisDriver && r.regs == regs.(timsk := 0)
  {
  }

  /** For a supported mode the WGM bits receive bits 0 and 3 of the mode value
      whatever the pin function is; when the pin function is then rejected,
      the COM bits, the clock bits and the GPIO registers are as before. */
  lemma {:induction false} WgmWrittenBeforePinFunctionCheck(codes: ModeCodes, c: TimerConfig, regs: TimerRegs)
    requires c.id == Timer0 && Classify(codes, c.mode).Some?
    ensures var r := TimerInit(codes, Some(c), regs);
            && r.regs.tccr0.wgm0 as int == c.mode % 2
            && r.regs.tccr0.wgm1 as int == (c.mode / 8) % 2
            && (r.status != DriverIsOk ==>
                  r.regs == regs.(timsk := 0, tccr0 := r.regs.tccr0)
                  && r.regs.tccr0.com0 == regs.tccr0.com0 && r.regs.tccr0.com1 == regs.tccr0.com1)
  {
    GetBitValues(c.mode);
  }

  /** The pin-function decision table of timer 0, against the reference
      compatibility sets: accepted exactly for the compatible values; out of
      range, reserved and incompatible values get their own status. */
  lemma {:induction false} PinFunctionDecisionTable(codes: ModeCodes, c: TimerConfig, regs: TimerRegs)
    requires codes.Distinct()
    requires c.id == Timer0 && Classify(codes, c.mode).Some?
    ensures var k := Classify(codes, c.mode).value;
            var pwm := k == PhaseCorrectPwm || k == FastPwm;
            var st := TimerInit(codes, Some(c), regs).status;
            && (st == DriverIsOk <==> c.pinFunc in CompatiblePinFunctions(k))
            && (c.pinFunc >= TimerMaxPinFunc ==> st == ValueIsNotExisted)
            && (pwm && c.pinFunc == TimerReservedPinFuncValue ==> st == ValueIsReserved)
            && (c.pinFunc < TimerMaxPinFunc && !(pwm && c.pinFunc == TimerReservedPinFuncValue)
                && c.pinFunc !in CompatiblePinFunctions(k) ==>
                  st == ValueIsNotCompatibleWithOtherConfigurations)
  {
  }

  /** On acceptance the caller's pin function is folded into the 2-bit COM
      range (values above 3 lose 3), the COM bits receive its two low bits,
      and PB3 is made an output exactly when the folded value is not "unused":
      DDRB bit 3 set, PORTB and the other ports untouched. */
  lemma {:induction false} AcceptedConfigurationEffects(codes: ModeCodes, c: TimerConfig, regs: TimerRegs)
    requires c.id == Timer0
    requires TimerInit(codes, Some(c), regs).status == DriverIsOk
    ensures var r := TimerInit(codes, Some(c), regs);
            var pf := r.config.value.pinFunc;
            var b := Gpio.PortB;
            && pf == (if c.pinFunc > MaxPinFunctionAcceptedValue then c.pinFunc - MaxPinFunctionAcceptedValue else c.pinFunc)
            && pf <= MaxPinFunctionAcceptedValue
            && 2 * (r.regs.tccr0.com1 as int) + r.regs.tccr0.com0 as int == pf
            && (pf == TimerPinNotUsed ==> r.regs.gpio == regs.gpio)
            && (pf != TimerPinNotUsed ==>
                  && r.regs.gpio.ports[b].ddr & 0x08 == 0x08
                  && r.regs.gpio.ports[b].ddr & !0x08 == regs.gpio.ports[b].ddr & !0x08
                  && r.regs.gpio.ports[b].port == regs.gpio.ports[b].port
                  && r.regs.gpio.ports == regs.gpio.ports[b := r.regs.gpio.ports[b]]
                  && r.regs.gpio.pud == regs.gpio.pud)
  {
    var r := TimerInit(codes, Some(c), regs);
    var pf := r.config.value.pinFunc;
    GetBitValues(pf);
    if pf != TimerPinNotUsed {
      Gpio.OutputEffects(r.regs.gpio, Gpio.PortB, Gpio.Pin3);
      Gpio.OutputEffects(regs.gpio, Gpio.PortB, Gpio.Pin3);
    }
  }

  /** The technique, interrupt status and callback fields are never read:
      two records that differ only there get the same status and registers. */
  lemma {:induction false} UnreadFieldsIrrelevant(codes: ModeCodes, c: TimerConfig, tech: nat, intr: nat, cb: nat, regs: TimerRegs)
    ensures var c' := c.(tech := tech, interruptStatus := intr, callback := cb);
            var r := TimerInit(codes, Some(c), regs);
            var r' := TimerInit(codes, Some(c'), regs);
            r'.status == r.status && r'.regs == r.regs
  {
  }

  /** Running timer_init again on the record it has just accepted: a PWM
      configuration with a non-inverting or inverting output (4 or 6) was
      folded to 1 or 3, which PWM modes reject, so the second call fails;
      every other accepted record is accepted again with the same registers. */
  lemma {:induction false} RerunOnNormalisedRecord(codes: ModeCodes, c: TimerConfig, regs: TimerRegs)
    requires codes.Distinct()
    requires c.id == Timer0
    requires TimerInit(codes, Some(c), regs).status == DriverIsOk
    ensures var r1 := TimerInit(codes, Some(c), regs);
            var r2 := TimerInit(codes, r1.config, r1.regs);
            && (IsPwmMode(codes, c.mode) && c.pinFunc != TimerPinNotUsed ==>
                  r2.status == ValueIsNotCompatibleWithOtherConfigurations)
            && (!(IsPwmMode(codes, c.mode) && c.pinFunc != TimerPinNotUsed) ==>
                  r2 == r1)
  {
    var r1 := TimerInit(codes, Some(c), regs);
    if !(IsPwmMode(codes, c.mode) && c.pinFunc != TimerPinNotUsed) && c.pinFunc != TimerPinNotUsed {
      Gpio.SetPinModeIdempotent(regs.gpio, Gpio.PortB, Gpio.Pin3, Gpio.PinOutput);
    }
  }

  /** Running timer_init twice with the same argument values (a record that
      still holds the caller's original values, not the folded one) gives
      the same status, record and registers as running it once. */
  lemma {:induction false} SameValuesTwice(codes: ModeCodes, c: TimerConfig, regs: TimerRegs)
    ensures var r1 := TimerInit(codes, Some(c), regs);
            TimerInit(codes, Some(c), r1.regs) == r1
  {
    var r1 := TimerInit(codes, Some(c), regs);
    if c.id == Timer0 && r1.status == DriverIsOk && r1.config.value.pinFunc != TimerPinNotUsed {
      Gpio.SetPinModeIdempotent(regs.gpio, Gpio.PortB, Gpio.Pin3, Gpio.PinOutput);
    }
  }
}
