# Atmega32 drivers: timer 0 set-up, EEPROM transfers, GPIO pin modes, sleep modes

This project is a Dafny model of four small drivers of an Atmega32 driver
family. Each driver call is modelled as a pure state transformer. It takes an
immutable record of the registers it touches and returns the driver status
together with the new register record.

- `McDriver` (mc_driver.dfy) holds what every driver shares:
  - the `driver_status_t` codes, extended with the three timer statuses that
    `timer_init` returns and the shared header does not declare;
  - NULL-able pointers as `Option`;
  - the (status, state) result;
  - `uint8` and `uint16`.
- `Gpio` (gpio.dfy) models `GPIO_set_pin_mode` over the table of the four
  (PORTx, DDRx) pairs and SFIOR.PUD.
  - The `switch` falls through from PIN_PULL_UP_INPUT into PIN_OUTPUT and on
    into `default`. So only PIN_FLOATING_INPUT reports DRIVER_IS_OK, and
    PIN_PULL_UP_INPUT ends with its DDR bits set (see Findings).
  - `CorrectedSetPinMode` is the switch with the missing `break`s.
  - Lemmas state the effect of each mode on the registers, bit by bit, and
    that a second identical call changes nothing.
- `Timer` (timer.dfy) models `timer_init`. The validation cascade, the TIMSK
  clear, the early WGM write, the pin-function fold, the COM write and the
  call into the GPIO model are all kept in the order the code has them.
  - An independent reference definition of the mode/pin-function
    compatibility sets is checked against the cascade (`PinFunctionDecisionTable`).
- `Eeprom` (eeprom.dfy) models `EEPROM_init`, `EEPROM_write_byte`,
  `EEPROM_write_data`, `EEPROM_read_data` and the interrupt enable/disable
  calls.
  - The EEPROM is a 1024-cell `seq<bv8>`.
  - The two function-static `next_location` variables are part of the driver
    state (`writeNext`, `readNext`).
  - The block calls are methods with the super-loop `while`. Each is proved
    equal to a closed-form function (`WriteDataModel`, `ReadDataModel`), and
    the closed forms carry the properties: counts, statuses, contents, the
    write-then-read round trip, and the `next_location` finding below.
- `ModeManager` (mode_manager.dfy) models `MM_set_mode` over the SE and SM
  fields of MCUCR. Each executed SLEEP instruction is a trace event that
  records the MCUCR contents it ran under.

Choices where the headers leave things open:

- The three timer-0 mode names other than TIMER_NORMAL_MODE are declared
  in none of the headers timer_prog.c includes. They are a parameter `ModeCodes`, and some lemmas ask only that
  the four values be distinct. WGM0 and WGM1 receive bits 0 and 3 of
  whatever value a mode has.
- The pin-function enumeration has a blank enumerator. It is read as the
  reserved value 5, so NON_INVERTING is 4, INVERTING is 6 and the maximum is 7.
- The EEPROM driver's own constants (last location 1023, "no data" 0) are
  declared in none of the headers EEPROM_prog.c includes (EEPROM_int.h,
  EEPROM_priv.h, EEPROM_cfg.h, atmega32_reg.h, MC_driver.h). They take the
  values their uses and comments imply; the last location 1023 is the
  maximum available address documented at EEPROM_cfg.h:19.
- The initial value of `next_location` (EEPROM_NO_ADDRESS) is declared in none of those
  headers either.
  The model leaves it free: it is whatever the driver state holds.
- `GET_BIT(value, BITn)` is read as bit n of the value, with BIT0, BIT1 and
  BIT3 as 0, 1 and 3 (timer_prog.c uses them; none of the headers timer_prog.c includes defines them).
- `EEPROM_ADDRESS_LEAST_BYTE` and `EEPROM_ADDRESS_MOST_BYTE` are read as the
  shifts 0 and 8. The EEPROM private header declares these values under the
  names `ADDRESS_LSB` and `ADDRESS_MSB` instead.
- `TIMER_PIN_NOT_USED` is read as the enumerator the timer header declares as
  `TIMER_NOT_USED_PIN`, value 0.
- The configured build is the super-loop one, with the EEPROM interrupt
  disabled and initial address 0.

Behaviour of the code a caller may not expect:

- Timer-0 set-up is not free of partial writes. TIMSK is cleared right after
  the NULL check, before the id check, and WGM is written before the pin function is checked
  (`WgmWrittenBeforePinFunctionCheck`).
- Timer-0 set-up is not idempotent on the caller's record, because the
  pin-function fold mutates it (`RerunOnNormalisedRecord`); a second call with a record holding the original values repeats the first result (`SameValuesTwice`).
- `timer_init` stores no configuration anywhere but the caller's record.
  It clears the whole of TIMSK, not only timer 0's bits.

## Model

| member | source | states |
|---|---|---|
| Gpio.SetBits | Atmega32/GPIO/GPIO_prog.c:73-78 | OR-ing the pin mask into a register sets every bit of the mask and keeps every other bit |
| Gpio.ClearBits | Atmega32/GPIO/GPIO_prog.c:65-67 | AND-ing with the inverted pin mask clears every bit of the mask and keeps every other bit |
| Gpio.SetPinMode | Atmega32/GPIO/GPIO_prog.c:50-98 | DRIVER_IS_OK exactly for an existing port, a pin value up to 0xFF and PIN_FLOATING_INPUT, else VALUE_IS_NOT_EXISTED; a bad port or pin changes nothing; no other port's registers change |
| Gpio.CorrectedSetPinMode | Atmega32/GPIO/GPIO_prog.c:40-98 | with the `break`s the documented modes need: DRIVER_IS_OK exactly for an existing port, a pin value up to 0xFF and one of the three documented modes; any refusal changes nothing; no other port's registers change |
| Gpio.CorrectedModeEffects | Atmega32/GPIO/GPIO_prog.c:40-78 | with the `break`s: pull-up input sets the PORTx pin bits, clears PUD and leaves the DDRx pin bits cleared, so the pins stay inputs; floating input and output act as documented |
| Gpio.CorrectedAgreesExceptPullUp | Atmega32/GPIO/GPIO_prog.c:61-83 | for every mode but pull-up input the code as written leaves the registers as the corrected switch does, and outside PIN_OUTPUT it returns the same status too |
| Gpio.PullUpInputEndsAsOutput | Atmega32/GPIO/GPIO_prog.c:69-82 | on an all-input port B, a pull-up request for PB3 leaves PB3 an output with VALUE_IS_NOT_EXISTED as written, and an input with its pull-up on and DRIVER_IS_OK when corrected |
| Gpio.FloatingInputEffects | Atmega32/GPIO/GPIO_prog.c:63-68 | floating input clears exactly the pin bits of PORTx and DDRx, keeps PUD, reports DRIVER_IS_OK |
| Gpio.PullUpInputEffects | Atmega32/GPIO/GPIO_prog.c:69-82 | pull-up input clears PUD and sets the pin bits of PORTx; through the fall-through the pin bits of DDRx end up set; reports VALUE_IS_NOT_EXISTED |
| Gpio.OutputEffects | Atmega32/GPIO/GPIO_prog.c:76-82 | output sets exactly the pin bits of DDRx, keeps PORTx and PUD, and through the fall-through reports VALUE_IS_NOT_EXISTED |
| Gpio.UnsupportedModeEffects | Atmega32/GPIO/GPIO_prog.c:79-82 | PIN_PULL_DOWN_INPUT and every mode from PIN_MAX_MODE on reach only `default`: nothing changes, VALUE_IS_NOT_EXISTED |
| Gpio.SetPinModePortEffect | Atmega32/GPIO/GPIO_prog.c:61-83 | the selected port's register pair changes as its mode prescribes, through the pin mask |
| Gpio.PortEffectBitwise | Atmega32/GPIO/GPIO_prog.c:65-78 | per pin: a pin outside the mask keeps both of its bits; a pin inside ends cleared/cleared, set/set or kept/set for floating, pull-up and output |
| Gpio.SetPinModeIdempotent | Atmega32/GPIO/GPIO_prog.c:61-83 | a second identical call returns the same status and leaves the registers as the first left them |
| Timer.TimerInit | Atmega32/Timer/timer_prog.c:40-133 | NULL touches nothing; any other record clears TIMSK, keeps the clock and FOC bits, and only the pin function of the caller's record may change; a rejected record is unchanged; an accepted timer-0 record ends with a pin function of at most 3 |
| Timer.GetBitValues | Atmega32/Timer/timer_prog.c:59-60 | GET_BIT at bits 0, 1 and 3 is the value's binary digit there |
| Timer.OtherTimerIds | Atmega32/Timer/timer_prog.c:51-53 | ids from TIMER_MAX_ID on give VALUE_IS_NOT_EXISTED, timers 1 and 2 give DRIVER_IS_OK; either way only TIMSK changes, to 0 |
| Timer.UnsupportedModeLeavesTccr0 | Atmega32/Timer/timer_prog.c:112-116 | a mode outside the four timer-0 modes gives VALUE_IS_NOT_ACCEPTED_FOR_THIS_DRIVER with TCCR0 and the GPIO registers unchanged |
| Timer.WgmWrittenBeforePinFunctionCheck | Atmega32/Timer/timer_prog.c:59-63 | for an accepted mode WGM0/WGM1 get bits 0/3 of the mode value; if the pin function is then rejected, COM, clock and GPIO registers are as before |
| Timer.PinFunctionDecisionTable | Atmega32/Timer/timer_prog.c:63-76 | accepted exactly when the pin function is in the mode's compatibility set (an independent definition); out of range, reserved and incompatible values each get their own status |
| Timer.AcceptedConfigurationEffects | Atmega32/Timer/timer_prog.c:80-103 | on acceptance the pin function is folded by subtracting 3 when above 3; COM1:COM0 hold the folded value; PB3 becomes an output exactly when it is not "unused", with no other GPIO bit changed |
| Timer.UnreadFieldsIrrelevant | Atmega32/Timer/timer_int.h:106-108 | the technique, interrupt-status and callback fields never affect the status or the registers |
| Timer.RerunOnNormalisedRecord | Atmega32/Timer/timer_prog.c:72-84 | re-running on the record just accepted fails as incompatible for a PWM mode with a used pin, and otherwise repeats the first result exactly |
| Timer.SameValuesTwice | Atmega32/Timer/timer_prog.c:40-133 | a second call with the same record values and the registers the first call left returns the same status, record and registers |
| ModeManager.SleepSelect | Atmega32/ModeManager/MM_prog.c:44 | the 3-bit SM field receives the mode value itself for every mode below 8 |
| ModeManager.SetMode | Atmega32/ModeManager/MM_prog.c:26-58 | DRIVER_IS_OK exactly below LAST_MODE; a refused mode changes nothing; every accepted call leaves SE clear and the interrupt-sense bits kept; NORMAL_MODE keeps SM and does not sleep; a sleep mode selects SM, sleeps exactly once with SE set, and keeps the earlier trace |
| ModeManager.SetModeKeepsSleepProtocol | Atmega32/ModeManager/MM_prog.c:41-54 | SLEEP only ever runs with SE armed, and no successful call leaves SE armed |
| ModeManager.NormalModeIdempotent | Atmega32/ModeManager/MM_prog.c:36-40 | selecting NORMAL_MODE twice is selecting it once |
| ModeManager.RunSleepsOncePerSleepMode | Atmega32/ModeManager/MM_prog.c:26-58 | over any sequence of calls: one SLEEP per accepted sleep mode, the earlier trace kept, the armed-SE protocol kept, the interrupt-sense bits kept |
| Eeprom.AddressSplitJoin | Atmega32/EEPROM/EEPROM_prog.c:87-88 | the low and high address bytes reassemble to the address; an EEPROM address needs only two bits of EEARH |
| Eeprom.InitWith | Atmega32/EEPROM/EEPROM_prog.c:26-47 | DRIVER_IS_OK exactly for an address up to 1023, with EEARH:EEARL holding it; otherwise EEPROM_ADDRESS_NOT_AVAILABLE with the address registers kept; EERIE set either way; nothing else changes |
| Eeprom.Init | Atmega32/EEPROM/EEPROM_cfg.h:22-36 | with the configured address 0 and interrupt off, initialisation succeeds, EEARH:EEARL hold 0 and EERIE is clear |
| Eeprom.EnableInterrupt | Atmega32/EEPROM/EEPROM_prog.c:308-315 | global interrupts and EERIE on, nothing else changes |
| Eeprom.DisableInterrupt | Atmega32/EEPROM/EEPROM_prog.c:320-324 | EERIE off, nothing else changes (the global flag included) |
| Eeprom.DisableAfterEnableKeepsGlobalInterrupt | Atmega32/EEPROM/EEPROM_prog.c:308-324 | enable then disable leaves global interrupts on: the two calls are not inverses |
| Eeprom.WriteByte | Atmega32/EEPROM/EEPROM_prog.c:55-116 | an address up to 1023 gets the byte, every other cell is unchanged, EEARH:EEARL hold the address, interrupts end on; a larger address is refused with only the global interrupt flag changed, to off |
| Eeprom.BlockCount | Atmega32/EEPROM/EEPROM_prog.c:150-172 | a running loop moves at least one byte and never more than are left; it stops early only at the end of the EEPROM |
| Eeprom.WriteDataModel | Atmega32/EEPROM/EEPROM_prog.c:127-201 | NULL pointers and a base past 1023 are refused with nothing changed; the caller's buffer is never changed |
| Eeprom.ReadDataModel | Atmega32/EEPROM/EEPROM_prog.c:212-303 | NULL pointers and a base past 1023 are refused with nothing changed; EEPROM contents, the write location and the interrupt flags are never changed |
| Eeprom.WriteBlockOutcome | Atmega32/EEPROM/EEPROM_prog.c:150-190 | `*actual_length` never decreases or passes the length; a byte moves exactly when the guard holds on entry; DATA_IS_WRITTEN exactly when the length is reached, and otherwise `next_location` is past 1023 |
| Eeprom.WriteBlockContents | Atmega32/EEPROM/EEPROM_prog.c:156-172 | a running write, from the base address for a new block or from `next_location` otherwise, stores buffer byte `*actual_length + j` at cell `start + j` for every byte it counts, keeps every other cell, stops exactly at the end of the block or past cell 1023, and leaves `next_location` just past the bytes written with global interrupts on |
| Eeprom.StoredFacts | Atmega32/EEPROM/EEPROM_prog.c:156-172 | after k iterations: byte `from + i` at cell `start + i`, every other cell unchanged, `next_location` just past the block, the last byte in EEDR and EEARH:EEARL |
| Eeprom.ReadBlockOutcome | Atmega32/EEPROM/EEPROM_prog.c:236-292 | the block read's counterpart of WriteBlockOutcome, with DATA_IS_READ |
| Eeprom.ReadBlockContents | Atmega32/EEPROM/EEPROM_prog.c:243-271 | a running read, from the base address for a new block or from `next_location` otherwise, puts cell `start + j` at buffer index `*actual_length + j` for every cell it counts, keeps every other buffer element, stops exactly at the end of the block or past cell 1023, leaves `next_location` just past the cells read, and changes no EEPROM cell |
| Eeprom.LoadedFacts | Atmega32/EEPROM/EEPROM_prog.c:256-268 | after k read iterations: `next_location` past them, the last cell in EEDR and its address in EEARH:EEARL, nothing else changed |
| Eeprom.WriteLoopStep | Atmega32/EEPROM/EEPROM_prog.c:150-172 | one write iteration stores `data[*actual_length]` at `next_location` and advances both, extending the closed form by one byte |
| Eeprom.ReadLoopStep | Atmega32/EEPROM/EEPROM_prog.c:236-271 | one read iteration loads the cell at `next_location` into the buffer and advances both, extending the closed form by one cell |
| Eeprom.WriteData | Atmega32/EEPROM/EEPROM_prog.c:127-201 | the super-loop block write computes exactly the closed form WriteDataModel |
| Eeprom.ReadData | Atmega32/EEPROM/EEPROM_prog.c:212-303 | the super-loop block read computes exactly the closed form ReadDataModel |
| Eeprom.WriteThenReadBack | Atmega32/EEPROM/EEPROM_prog.c:127-303 | a block that fits, written and then read from the same base, comes back byte for byte, if neither stored `next_location` is past 1023 |
| Eeprom.StaleWriteLocationIsPermanent | Atmega32/EEPROM/EEPROM_prog.c:150-157 | once the write `next_location` is past 1023, every block write moves nothing and reports an incomplete write |
| Eeprom.StaleReadLocationIsPermanent | Atmega32/EEPROM/EEPROM_prog.c:236-243 | once the read `next_location` is past 1023, every block read moves nothing and reports an incomplete read |
| Eeprom.LastCellBlockStrandsNextBlock | Atmega32/EEPROM/EEPROM_prog.c:130-172 | a one-byte block at cell 1023 is written, and the next one-byte block at 0 then writes nothing |
| Eeprom.LastCellReadStrandsNextRead | Atmega32/EEPROM/EEPROM_prog.c:215-271 | a one-byte read of cell 1023 succeeds, and the next one-byte read from 0 then reads nothing |
| Eeprom.CorrectedWriteStartsEveryNewBlock | Atmega32/EEPROM/EEPROM_prog.c:150-157 | with the location reset before the guard, every new block is written from its base, min(length, 1024 - base) bytes, complete exactly when it fits |
| Eeprom.CorrectedReadStartsEveryNewBlock | Atmega32/EEPROM/EEPROM_prog.c:236-243 | with the location reset before the guard, every new block read copies min(length, 1024 - base) cells from its base, complete exactly when it fits |
| Eeprom.CorrectedLastCellBlockThenNextBlock | Atmega32/EEPROM/EEPROM_prog.c:150-157 | in the scenario that strands the as-written write, the corrected write stores both blocks |
| Eeprom.CorrectedLastCellReadThenNextRead | Atmega32/EEPROM/EEPROM_prog.c:236-243 | in the scenario that strands the as-written read, the corrected read reads both blocks |
| Eeprom.CorrectedWriteThenReadBack | Atmega32/EEPROM/EEPROM_prog.c:127-303 | with the corrected guard the round trip holds from any driver state |

## Left out

- The busy-waits on EECR.EEWE and SPMCR.SPMEN are left out: the device is taken as always ready, and a write reaches the cell at once.
- The bootloader branch is left out with them.
- The TIME_TRIGGER_OS variants of the EEPROM calls are left out; the configured build is the super-loop one.
- The whole-register EECR write in `EEPROM_write_byte` is left out, because its constant is declared in none of the headers EEPROM_prog.c includes. The EEMWE and EERE strobes are left out too. EERIE is changed only by init and the interrupt calls; that `WriteByte` and the block write keep EERIE is an artifact of leaving that write out, not a promise of the code, which very likely clears EERIE on hardware.
- Register addresses, volatile access and bitfield layouts are left out. Registers are abstract fields.
- The physical effect of SLEEP is left out. It is kept only as a trace event.
- Interrupt service routines, callbacks and asynchronous interrupt delivery are left out, because the model has no concurrency.
- Every timer API except `timer_init` is left out, because each is only declared (timer_int.h:116-124) and has no body: `timer_set_mode`, `timer_set_pin_function`, `timer_set_tech`, `timer_set_inerrupt_status`, `timer_set_callback_function`, `timer_set_period_us` (the period calculation), `timer_set_pwm_info`, `timer_start` and `timer_stop`. The unused callback globals and the clock/prescaler constants are left out with them.
- `GPIO_set_pin_level`, `GPIO_get_pin_level`, `GPIO_tog_pin_level` and `MM_get_mode` are left out: they are only declared.
- The values of the undeclared timer-0 mode names are left out. They are a parameter, and the lemmas that need them distinct say so.
- Timer.TimerInit: the returned GPIO status is dropped, as the code drops it. The model does not say which GPIO status that was.

## Findings

| source | as written | input that shows it | evidently intended | confidence | as-written member | corrected member |
|---|---|---|---|---|---|---|
| Atmega32/EEPROM/EEPROM_prog.c:150-157 | the block-write guard tests the `next_location` left by the previous call, and only then resets it to `base_address` for a new block | write a one-byte block at base 1023, then a one-byte block at base 0: the second writes nothing and reports EEPROM_DATA_IS_NOT_COMPLETELY_WRITTEN, as does every later block write; the same happens from the start if EEPROM_NO_ADDRESS is above 1023 | reset the location for a new block before testing it | not executed | Eeprom.LastCellBlockStrandsNextBlock | Eeprom.CorrectedWriteStartsEveryNewBlock |
| Atmega32/GPIO/GPIO_prog.c:69-82 | PIN_PULL_UP_INPUT and PIN_OUTPUT have no `break`, so both fall into `default`: the pull-up pins are turned back into outputs, and both modes report VALUE_IS_NOT_EXISTED, against the documented mode list and return value at lines 43-47 | set a pull-up input on PB3 of an all-input port B: DDRB bit 3 ends set and the call reports VALUE_IS_NOT_EXISTED | a `break` after each case, leaving pull-up pins as inputs and reporting DRIVER_IS_OK for all three documented modes | not executed | Gpio.PullUpInputEffects | Gpio.CorrectedSetPinMode |
| Atmega32/EEPROM/EEPROM_prog.c:236-243 | the block-read guard has the same order: test the old `next_location`, then reset it | read a one-byte block at base 1023, then a one-byte block at base 0: the second reads nothing and reports EEPROM_DATA_IS_NOT_COMPLETELY_READ, as does every later block read | reset the location for a new block before testing it | not executed | Eeprom.LastCellReadStrandsNextRead | Eeprom.CorrectedReadStartsEveryNewBlock |

The block methods `WriteData` and `ReadData` follow the code as written.
The closed forms take the guard placement as a parameter
(`LocationGuard.AsWritten` or `LocationGuard.Corrected`). The corrected
placement also has its own round trip, `CorrectedWriteThenReadBack`, proved
from any driver state.

`timer_init` calls `GPIO_set_pin_mode` only with PIN_OUTPUT, where the
code as written and `CorrectedSetPinMode` leave the same registers
(`CorrectedAgreesExceptPullUp`). The timer model therefore keeps the call as
written.
