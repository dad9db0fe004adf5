/**
 * Mode manager: `MM_set_mode` over the MCU control register MCUCR. A sleep
 * mode is entered by selecting it in MCUCR.SM, arming the sleep enable bit
 * MCUCR.SE, executing the SLEEP instruction and disarming SE again on wake-up.
 * The SLEEP instruction itself is recorded as an event carrying the MCUCR
 * contents it executed under.
 */
module ModeManager {
  import opened McDriver

  // mode_t
  const IdleMode: nat := 0
  const AdcNoiseReductionMode: nat := 1
  const PwrDownMode: nat := 2
  const PwrSaveMode: nat := 3
  const StandbyMode: nat := 6
  const ExtendedStandbyMode: nat := 7
  const NormalMode: nat := 8
  const LastMode: nat := 9

  /** MCUCR: sleep enable, the 3-bit sleep mode select, and the four
      external-interrupt sense control bits the driver never touches. */
  datatype Mcucr = Mcucr(se: bv1, sm: bv3, interruptSense: bv4)

  /** The register together with the SLEEP instructions executed so far,
      each as the MCUCR value in force when it ran. */
  datatype Mcu = Mcu(mcucr: Mcucr, sleeps: seq<Mcucr>)

  /** `(uint8_t)mode` stored in the 3-bit SM field keeps the low three bits. */
  function SleepSelect(mode: nat): (sm: bv3)
    ensures mode < 8 ==> sm as nat == mode
  {
    (mode % 8) as bv3
  }

  /**
   * MM_set_mode. Values from LAST_MODE on are refused and change nothing;
   * NORMAL_MODE only disarms SE; every other value below NORMAL_MODE,
   * including the unnamed 4 and 5, is selected, slept in and disarmed.
   */
  function SetMode(s: Mcu, mode: nat): (r: Result<Mcu>)
    ensures r.status == DriverIsOk <==> mode < LastMode
    ensures r.status != DriverIsOk ==> r.status == ValueIsNotExisted && r.state == s
    ensures mode < LastMode ==>
              r.state.mcucr.se == 0 && r.state.mcucr.interruptSense == s.mcucr.interruptSense
    ensures mode == NormalMode ==>
              r.state.mcucr.sm == s.mcucr.sm && r.state.sleeps == s.sleeps
    ensures mode < NormalMode ==>
              && r.state.mcucr.sm as nat == mode
              && |r.state.sleeps| == |s.sleeps| + 1
              && r.state.sleeps[..|s.sleeps|] == s.sleeps
              && r.state.sleeps[|s.sleeps|] == Mcucr(1, r.state.mcucr.sm, s.mcucr.interruptSense)
  {
    if mode >= LastMode then
      Result(ValueIsNotExisted, s)
    else if mode == NormalMode then
      Result(DriverIsOk, s.(mcucr := s.mcucr.(se := 0)))
    else
      var armed := s.mcucr.(sm := SleepSelect(mode), se := 1);
      Result(DriverIsOk, Mcu(armed.(se := 0), s.sleeps + [armed]))
  }

  /** Every SLEEP instruction so far ran with SE armed. */
  predicate SleepsArmed(s: Mcu) {
    forall i | 0 <= i < |s.sleeps| :: s.sleeps[i].se == 1
  }

  /** The driver never executes SLEEP with SE disarmed, and never leaves SE
      armed behind a successful call. */
  lemma SetModeKeepsSleepProtocol(s: Mcu, mode: nat)
    requires SleepsArmed(s)
    ensures var r := SetMode(s, mode);
            SleepsArmed(r.state) && (r.status == DriverIsOk ==> r.state.mcucr.se == 0)
  {
    var r := SetMode(s, mode);
    if mode < NormalMode {
      forall i | 0 <= i < |r.state.sleeps|
        ensures r.state.sleeps[i].se == 1
      {
        if i < |s.sleeps| {
          assert r.state.sleeps[i] == r.state.sleeps[..|s.sleeps|][i];
        }
      }
    }
  }

  /** Selecting the normal mode is idempotent; selecting a sleep mode is not,
      since each call sleeps again. */
  lemma NormalModeIdempotent(s: Mcu)
    ensures var once := SetMode(s, NormalMode);
            SetMode(once.state, NormalMode) == once
  {
  }

  /** The state after a sequence of MM_set_mode calls. */
  function Run(s: Mcu, modes: seq<nat>): Mcu
    decreases |modes|
  {
    if |modes| == 0 then s else Run(SetMode(s, modes[0]).state, modes[1..])
  }

  /** How many of `modes` are sleep modes the driver accepts: none exactly
      when every mode is NORMAL_MODE or refused, all exactly when every mode
      is a sleep mode. */
  function SleepModeCount(modes: seq<nat>): (n: nat)
    ensures n <= |modes|
    ensures n == 0 <==> forall i | 0 <= i < |modes| :: modes[i] >= NormalMode
    ensures n == |modes| <==> forall i | 0 <= i < |modes| :: modes[i] < NormalMode
    decreases |modes|
  {
    if |modes| == 0 then 0
    else (if modes[0] < NormalMode then 1 else 0) + SleepModeCount(modes[1..])
  }

  /** Over any sequence of calls the driver sleeps exactly once per accepted
      sleep mode, keeps the earlier sleep history, and keeps the protocol. */
  lemma {:induction false} RunSleepsOncePerSleepMode(s: Mcu, modes: seq<nat>)
    ensures var t := Run(s, modes);
            && |t.sleeps| == |s.sleeps| + SleepModeCount(modes)
            && t.sleeps[..|s.sleeps|] == s.sleeps
            && (SleepsArmed(s) ==> SleepsArmed(t))
            && t.mcucr.interruptSense == s.mcucr.interruptSense
    decreases |modes|
  {
    if |modes| > 0 {
      var r := SetMode(s, modes[0]);
      if SleepsArmed(s) {
        SetModeKeepsSleepProtocol(s, modes[0]);
      }
      RunSleepsOncePerSleepMode(r.state, modes[1..]);
      var t := Run(r.state, modes[1..]);
      assert r.state.sleeps[..|s.sleeps|] == s.sleeps;
      assert t.sleeps[..|s.sleeps|] == t.sleeps[..|r.state.sleeps|][..|s.sleeps|];
    }
  }
}
