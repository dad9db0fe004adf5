/**
 * Types shared by every driver of the family: the driver status codes, the
 * nullable pointer, the (status, new state) pair every operation returns and
 * the 16-bit unsigned integer the EEPROM interface uses.
 */
module McDriver {

  /** The status codes of `driver_status_t`, extended with the timer statuses
      that timer_init returns but the shared header does not declare. */
  datatype Status =
    | DriverIsOk
    | ValueIsNotExisted
    | PtrUsedIsNullPtr
    | EepromAddressNotAvailable
    | EepromDataIsWritten
    | EepromDataIsNotCompletelyWritten
    | EepromDataIsRead
    | EepromDataIsNotCompletelyRead
    | ValueIsReserved
    | ValueIsNotCompatibleWithOtherConfigurations
    | ValueIsNotAcceptedForThisDriver

  /** A pointer argument: `None` is the NULL pointer, `Some(v)` points at `v`. */
  datatype Option<T> = None | Some(value: T)

  /** What a driver call returns together with the register state it leaves. */
  datatype Result<S> = Result(status: Status, state: S)

  /** `uint8_t`. */
  type uint8 = x: int | 0 <= x < 0x100

  /** `uint16_t`. */
  type uint16 = x: int | 0 <= x < 0x1_0000

  function Min(a: int, b: int): (m: int)
    ensures m <= a && m <= b && (m == a || m == b)
  {
    if a <= b then a else b
  }

  function Max(a: int, b: int): (m: int)
    ensures m >= a && m >= b && (m == a || m == b)
  {
    if a <= b then b else a
  }
}
