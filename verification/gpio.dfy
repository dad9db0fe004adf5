/**
 * GPIO driver: `GPIO_set_pin_mode` over the table of the four port register
 * pairs (PORTx, DDRx), and the pull-up disable bit SFIOR.PUD.
 */
module Gpio {
  import opened McDriver

  // gpio_port_t
  const PortA: nat := 0
  const PortB: nat := 1
  const PortC: nat := 2
  const PortD: nat := 3
  const PortMax: nat := 4

  // gpio_pin_t: one bit per pin, or any OR of them
  const Pin3: nat := 0x08
  const PinAll: nat := 0xFF

  // gpio_mode_t
  const PinOutput: nat := 0
  const PinFloatingInput: nat := 1
  const PinPullUpInput: nat := 2
  const PinPullDownInput: nat := 3
  const PinMaxMode: nat := 4

  /** The output-latch / pull-up register PORTx and the direction register DDRx of one port. */
  datatype PortRegs = PortRegs(port: bv8, ddr: bv8)

  /** The `GPIO_PORTS` table: one register pair per port, indexed by `gpio_port_t`. */
  type PortTable = s: seq<PortRegs> | |s| == PortMax
    witness [PortRegs(0, 0), PortRegs(0, 0), PortRegs(0, 0), PortRegs(0, 0)]

  datatype GpioRegs = GpioRegs(ports: PortTable, pud: bv1)

  /** `after` has every bit of mask `m` set and agrees with `before` elsewhere. */
  predicate SetsExactly(after: bv8, before: bv8, m: bv8) {
    after & m == m && after & !m == before & !m
  }

  /** `after` has every bit of mask `m` cleared and agrees with `before` elsewhere. */
  predicate ClearsExactly(after: bv8, before: bv8, m: bv8) {
    after & m == 0 && after & !m == before & !m
  }

  /** `reg |= mask`. */
  function SetBits(reg: bv8, m: bv8): (r: bv8)
    ensures SetsExactly(r, reg, m)
  {
    reg | m
  }

  /** `reg &= ~mask`. */
  function ClearBits(reg: bv8, m: bv8): (r: bv8)
    ensures ClearsExactly(r, reg, m)
  {
    reg & !m
  }

  /**
   * GPIO_set_pin_mode. The `switch` has no `break` after PIN_PULL_UP_INPUT
   * and PIN_OUTPUT, so both fall through into `default` and report
   * ValueIsNotExisted after doing their register work; only
   * PIN_FLOATING_INPUT reports DriverIsOk.
   */
  function SetPinMode(g: GpioRegs, port: nat, pin: nat, mode: nat): (r: Result<GpioRegs>)
    ensures r.status == DriverIsOk <==> port < PortMax && pin <= PinAll && mode == PinFloatingInput
    ensures r.status == DriverIsOk || r.status == ValueIsNotExisted
    ensures port >= PortMax || pin > PinAll ==> r.state == g
    ensures port < PortMax ==> r.state.ports == g.ports[port := r.state.ports[port]]
  {
    if port < PortMax && pin <= PinAll then
      var m := pin as bv8;
      var p := g.ports[port];
      if mode == PinFloatingInput then
        Result(DriverIsOk, g.(ports := g.ports[port := PortRegs(ClearBits(p.port, m), ClearBits(p.ddr, m))]))
      else if mode == PinPullUpInput then
        // PUD := 0, PORT |= pin, DDR &= ~pin, then falls into PIN_OUTPUT: DDR |= pin
        var inputDdr := ClearBits(p.ddr, m);
        Result(ValueIsNotExisted,
               g.(pud := 0, ports := g.ports[port := PortRegs(SetBits(p.port, m), SetBits(inputDdr, m))]))
      else if mode == PinOutput then
        Result(ValueIsNotExisted, g.(ports := g.ports[port := p.(ddr := SetBits(p.ddr, m))]))
      else
        Result(ValueIsNotExisted, g)
    else
      Result(ValueIsNotExisted, g)
  }

  /**
   * GPIO_set_pin_mode with the `break` that PIN_PULL_UP_INPUT and PIN_OUTPUT
   * lack, as the documented mode list and status promise: each of the three
   * documented modes reports DriverIsOk, a pull-up input stays an input,
   * and only an unknown mode reaches `default`.
   */
  function CorrectedSetPinMode(g: GpioRegs, port: nat, pin: nat, mode: nat): (r: Result<GpioRegs>)
    ensures r.status == DriverIsOk <==>
              port < PortMax && pin <= PinAll && (mode == PinFloatingInput || mode == PinPullUpInput || mode == PinOutput)
    ensures r.status == DriverIsOk || r.status == ValueIsNotExisted
    ensures r.status != DriverIsOk ==> r.state == g
    ensures port < PortMax ==> r.state.ports == g.ports[port := r.state.ports[port]]
  {
    if port < PortMax && pin <= PinAll then
      var m := pin as bv8;
      var p := g.ports[port];
      if mode == PinFloatingInput then
        Result(DriverIsOk, g.(ports := g.ports[port := PortRegs(ClearBits(p.port, m), ClearBits(p.ddr, m))]))
      else if mode == PinPullUpInput then
        Result(DriverIsOk, g.(pud := 0, ports := g.ports[port := PortRegs(SetBits(p.port, m), ClearBits(p.ddr, m))]))
      else if mode == PinOutput then
        Result(DriverIsOk, g.(ports := g.ports[port := p.(ddr := SetBits(p.ddr, m))]))
      else
        Result(ValueIsNotExisted, g)
    else
      Result(ValueIsNotExisted, g)
  }

  /** What each documented mode does under the corrected switch: floating
      input clears the selected PORTx and DDRx bits, pull-up input sets the
      selected PORTx bits, clears PUD and leaves the selected DDRx bits
      cleared (input), and output sets the selected DDRx bits. */
  lemma CorrectedModeEffects(g: GpioRegs, port: nat, pin: nat)
    requires port < PortMax && pin <= PinAll
    ensures var r := CorrectedSetPinMode(g, port, pin, PinFloatingInput);
            && ClearsExactly(r.state.ports[port].port, g.ports[port].port, pin as bv8)
            && ClearsExactly(r.state.ports[port].ddr, g.ports[port].ddr, pin as bv8)
            && r.state.pud == g.pud
    ensures var r := CorrectedSetPinMode(g, port, pin, PinPullUpInput);
            && SetsExactly(r.state.ports[port].port, g.ports[port].port, pin as bv8)
            && ClearsExactly(r.state.ports[port].ddr, g.ports[port].ddr, pin as bv8)
            && r.state.pud == 0
    ensures var r := CorrectedSetPinMode(g, port, pin, PinOutput);
            && r.state.ports[port].port == g.ports[port].port
            && SetsExactly(r.state.ports[port].ddr, g.ports[port].ddr, pin as bv8)
            && r.state.pud == g.pud
  {
  }

  /** The missing `break`s change nothing but PIN_PULL_UP_INPUT's direction
      bits and the status of the two modes that fall through: every other
      call leaves the registers as the corrected switch does, and PIN_OUTPUT
      differs only in its status. */
  lemma CorrectedAgreesExceptPullUp(g: GpioRegs, port: nat, pin: nat, mode: nat)
    requires mode != PinPullUpInput
    ensures CorrectedSetPinMode(g, port, pin, mode).state == SetPinMode(g, port, pin, mode).state
    ensures mode != PinOutput ==> CorrectedSetPinMode(g, port, pin, mode) == SetPinMode(g, port, pin, mode)
  {
  }

  /** A concrete scenario: asking for a pull-up input on PB3 of a port that
      is all input leaves PB3 driven as an output by the code as written, and
      reports VALUE_IS_NOT_EXISTED; the corrected switch keeps it an input
      with its pull-up on and reports DRIVER_IS_OK. */
  lemma PullUpInputEndsAsOutput(g: GpioRegs)
    requires g.ports[PortB].ddr == 0
    ensures var w := SetPinMode(g, PortB, Pin3, PinPullUpInput);
            w.status == ValueIsNotExisted && w.state.ports[PortB].ddr == 0x08
    ensures var c := CorrectedSetPinMode(g, PortB, Pin3, PinPullUpInput);
            c.status == DriverIsOk && c.state.ports[PortB].ddr == 0 && c.state.ports[PortB].port & 0x08 == 0x08
  {
  }

  /** PIN_FLOATING_INPUT clears exactly the selected bits of PORTx (no
      pull-up) and of DDRx (input), keeps PUD and reports DriverIsOk. */
  lemma FloatingInputEffects(g: GpioRegs, port: nat, pin: nat)
    requires port < PortMax && pin <= PinAll
    ensures var r := SetPinMode(g, port, pin, PinFloatingInput);
            && r.status == DriverIsOk
            && ClearsExactly(r.state.ports[port].port, g.ports[port].port, pin as bv8)
            && ClearsExactly(r.state.ports[port].ddr, g.ports[port].ddr, pin as bv8)
            && r.state.pud == g.pud
  {
  }

  /** PIN_PULL_UP_INPUT enables the pull-ups globally (PUD := 0) and sets the
      selected PORTx bits; its DDRx clear is undone by the fall-through into
      PIN_OUTPUT, so the selected DDRx bits end up set (output), and it
      reports ValueIsNotExisted. */
  lemma PullUpInputEffects(g: GpioRegs, port: nat, pin: nat)
    requires port < PortMax && pin <= PinAll
    ensures var r := SetPinMode(g, port, pin, PinPullUpInput);
            && r.status == ValueIsNotExisted
            && SetsExactly(r.state.ports[port].port, g.ports[port].port, pin as bv8)
            && SetsExactly(r.state.ports[port].ddr, g.ports[port].ddr, pin as bv8)
            && r.state.pud == 0
  {
  }

  /** PIN_OUTPUT sets exactly the selected DDRx bits, keeps PORTx and PUD,
      and, falling into `default`, reports ValueIsNotExisted. */
  lemma OutputEffects(g: GpioRegs, port: nat, pin: nat)
    requires port < PortMax && pin <= PinAll
    ensures var r := SetPinMode(g, port, pin, PinOutput);
            && r.status == ValueIsNotExisted
            && r.state.ports[port].port == g.ports[port].port
            && SetsExactly(r.state.ports[port].ddr, g.ports[port].ddr, pin as bv8)
            && r.state.pud == g.pud
  {
  }

  /** PIN_PULL_DOWN_INPUT and every value from PIN_MAX_MODE on reach only
      `default`: nothing changes and the status is ValueIsNotExisted. */
  lemma UnsupportedModeEffects(g: GpioRegs, port: nat, pin: nat, mode: nat)
    requires mode == PinPullDownInput || mode >= PinMaxMode
    ensures SetPinMode(g, port, pin, mode) == Result(ValueIsNotExisted, g)
  {
  }

  /** The effect a mode has on the selected port's register pair, through the
      pin mask `m`. */
  predicate PortEffect(mode: nat, before: PortRegs, after: PortRegs, m: bv8) {
    if mode == PinFloatingInput then
      ClearsExactly(after.port, before.port, m) && ClearsExactly(after.ddr, before.ddr, m)
    else if mode == PinPullUpInput then
      SetsExactly(after.port, before.port, m) && SetsExactly(after.ddr, before.ddr, m)
    else if mode == PinOutput then
      after.port == before.port && SetsExactly(after.ddr, before.ddr, m)
    else
      after == before
  }

  lemma SetPinModePortEffect(g: GpioRegs, port: nat, pin: nat, mode: nat)
    requires port < PortMax && pin <= PinAll
    ensures PortEffect(mode, g.ports[port], SetPinMode(g, port, pin, mode).state.ports[port], pin as bv8)
  {
    if mode == PinFloatingInput {
      FloatingInputEffects(g, port, pin);
    } else if mode == PinPullUpInput {
      PullUpInputEffects(g, port, pin);
    } else if mode == PinOutput {
      OutputEffects(g, port, pin);
    } else {
      UnsupportedModeEffects(g, port, pin, mode);
    }
  }

  /** `b` has exactly one bit set: it selects one pin. */
  predicate SingleBit(b: bv8) {
    b == 0x01 || b == 0x02 || b == 0x04 || b == 0x08 || b == 0x10 || b == 0x20 || b == 0x40 || b == 0x80
  }

  /** Pin by pin: a pin outside the mask keeps both register bits; a pin
      inside ends up as the mode prescribes. */
  lemma PortEffectBitwise(mode: nat, before: PortRegs, after: PortRegs, m: bv8, b: bv8)
    requires PortEffect(mode, before, after, m) && SingleBit(b)
    ensures if m & b == 0 then
              after.port & b == before.port & b && after.ddr & b == before.ddr & b
            else if mode == PinFloatingInput then
              after.port & b == 0 && after.ddr & b == 0
            else if mode == PinPullUpInput then
              after.port & b != 0 && after.ddr & b != 0
            else if mode == PinOutput then
              after.port & b == before.port & b && after.ddr & b != 0
            else
              after == before
  {
    if mode == PinFloatingInput {
      ClearMaskBit(after.port, before.port, m, b);
      ClearMaskBit(after.ddr, before.ddr, m, b);
    } else if mode == PinPullUpInput {
      SetMaskBit(after.port, before.port, m, b);
      SetMaskBit(after.ddr, before.ddr, m, b);
    } else if mode == PinOutput {
      SetMaskBit(after.ddr, before.ddr, m, b);
    }
  }

  /** Relates SetsExactly to a single bit: set if the mask has it, else kept. */
  lemma SetMaskBit(after: bv8, before: bv8, m: bv8, b: bv8)
    requires SetsExactly(after, before, m) && SingleBit(b)
    ensures if m & b != 0 then after & b != 0 else after & b == before & b
  {
    assert after == before | m;
  }

  /** Relates ClearsExactly to a single bit: cleared if the mask has it, else kept. */
  lemma ClearMaskBit(after: bv8, before: bv8, m: bv8, b: bv8)
    requires ClearsExactly(after, before, m) && SingleBit(b)
    ensures if m & b != 0 then after & b == 0 else after & b == before & b
  {
    assert after == before & !m;
  }

  /** Setting the same mode twice leaves the registers as setting it once. */
  lemma SetPinModeIdempotent(g: GpioRegs, port: nat, pin: nat, mode: nat)
    ensures var once := SetPinMode(g, port, pin, mode);
            SetPinMode(once.state, port, pin, mode) == once
  {
    if port < PortMax && pin <= PinAll {
      if mode == PinFloatingInput {
        FloatingInputTwice(g, port, pin);
      } else if mode == PinPullUpInput {
        PullUpInputTwice(g, port, pin);
      } else if mode == PinOutput {
        OutputTwice(g, port, pin);
      }
    }
  }

  /** Idempotence mode by mode: the second call recomputes the register
      pair the first call left. */
  lemma FloatingInputTwice(g: GpioRegs, port: nat, pin: nat)
    requires port < PortMax && pin <= PinAll
    ensures var once := SetPinMode(g, port, pin, PinFloatingInput);
            SetPinMode(once.state, port, pin, PinFloatingInput) == once
  {
    var m := pin as bv8;
    var p := g.ports[port];
    var once := SetPinMode(g, port, pin, PinFloatingInput);
    var q := once.state.ports[port];
    assert q == PortRegs(ClearBits(p.port, m), ClearBits(p.ddr, m));
    ClearBitsTwice(p.port, m);
    ClearBitsTwice(p.ddr, m);
    assert once.state.ports[port := PortRegs(ClearBits(q.port, m), ClearBits(q.ddr, m))] == once.state.ports;
  }

  lemma PullUpInputTwice(g: GpioRegs, port: nat, pin: nat)
    requires port < PortMax && pin <= PinAll
    ensures var once := SetPinMode(g, port, pin, PinPullUpInput);
            SetPinMode(once.state, port, pin, PinPullUpInput) == once
  {
    var m := pin as bv8;
    var p := g.ports[port];
    var once := SetPinMode(g, port, pin, PinPullUpInput);
    var q := once.state.ports[port];
    assert q == PortRegs(SetBits(p.port, m), SetBits(ClearBits(p.ddr, m), m));
    SetBitsTwice(p.port, m);
    SetBitsTwice(p.ddr, m);
    assert once.state.ports[port := PortRegs(SetBits(q.port, m), SetBits(ClearBits(q.ddr, m), m))] == once.state.ports;
  }

  lemma OutputTwice(g: GpioRegs, port: nat, pin: nat)
    requires port < PortMax && pin <= PinAll
    ensures var once := SetPinMode(g, port, pin, PinOutput);
            SetPinMode(once.state, port, pin, PinOutput) == once
  {
    var m := pin as bv8;
    var p := g.ports[port];
    var once := SetPinMode(g, port, pin, PinOutput);
    var q := once.state.ports[port];
    assert q == p.(ddr := SetBits(p.ddr, m));
    SetBitsTwice(p.ddr, m);
    assert once.state.ports[port := q.(ddr := SetBits(q.ddr, m))] == once.state.ports;
  }

  lemma SetBitsTwice(b: bv8, m: bv8)
    ensures SetBits(SetBits(b, m), m) == SetBits(b, m)
    ensures SetBits(ClearBits(SetBits(ClearBits(b, m), m), m), m) == SetBits(ClearBits(b, m), m)
  {
  }

  lemma ClearBitsTwice(b: bv8, m: bv8)
    ensures ClearBits(ClearBits(b, m), m) == ClearBits(b, m)
  {
  }
}
