/**
 * EEPROM driver of the super-loop build: byte writes into the 1 KiB data
 * EEPROM, and resumable block writes and reads that keep their position in a
 * function-static `next_location` between calls.
 *
 * The device is always taken as ready: the busy-waits on EEWE and SPMEN are
 * not modelled, and a write lands in the memory array as soon as it is issued.
 */
module Eeprom {
  import opened McDriver

  const EepromSize: nat := 1024
  const EepromLastLocation: nat := 1023

  /** `*actual_length` of a block that has not started. */
  const EepromNoData: nat := 0

  // EEPROM_cfg.h
  const EepromInitialAddress: uint16 := 0
  const EepromInterruptDisable: bv1 := 0
  const EepromInterruptEnable: bv1 := 1
  const EepromInterrupt: bv1 := EepromInterruptDisable

  type Memory = s: seq<bv8> | |s| == EepromSize witness seq(1024, _ => 0 as bv8)

  /**
   * The driver's world: the EEPROM cells, the address and data registers, the
   * ready-interrupt enable EECR.EERIE, the global interrupt flag SREG.I, and
   * the two static `next_location` variables of the block write and the
   * block read.
   */
  datatype Eeprom = Eeprom(
    mem: Memory,
    eearl: uint8,
    eearh: uint8,
    eedr: bv8,
    eerie: bv1,
    globalInterrupt: bool,
    writeNext: uint16,
    readNext: uint16)

  // ---------------------------------------------------------------------------
  // Address register split

  /** `(uint8_t)(address >> 0)`, the value written to EEARL. */
  function AddressLow(a: uint16): uint8 {
    a % 256
  }

  /** `(uint8_t)(address >> 8)`, the value written to EEARH; a 16-bit
      address shifted right by 8 always fits a byte. */
  function AddressHigh(a: uint16): uint8 {
    a / 256
  }

  /** EEARH:EEARL hold address `a`: the address the hardware sees. */
  predicate AddressIs(e: Eeprom, a: int) {
    256 * e.eearh + e.eearl == a
  }

  /** The two register bytes reassemble to the address, and an address inside
      the EEPROM needs only the two low bits of EEARH. */
  lemma {:induction false} AddressSplitJoin(a: uint16)
    ensures 256 * AddressHigh(a) + AddressLow(a) == a
    ensures a <= EepromLastLocation ==> AddressHigh(a) <= 3
  {
  }

  // ---------------------------------------------------------------------------
  // Initialisation and interrupt control

  /** `after` and `before` differ at most in EEARH, EEARL and EECR.EERIE. */
  predicate OnlyControlRegistersDiffer(after: Eeprom, before: Eeprom) {
    && after.mem == before.mem
    && after.eedr == before.eedr
    && after.globalInterrupt == before.globalInterrupt
    && after.writeNext == before.writeNext
    && after.readNext == before.readNext
  }

  /** EEPROM_init for a given configured initial address and ready-interrupt
      setting: loads the address registers when the address exists, and sets
      EERIE either way. */
  function InitWith(e: Eeprom, initialAddress: uint16, interrupt: bv1): (r: Result<Eeprom>)
    ensures r.status == DriverIsOk <==> initialAddress <= EepromLastLocation
    ensures r.status != DriverIsOk ==>
              && r.status == EepromAddressNotAvailable
              && r.state.eerie == interrupt && r.state.eearl == e.eearl && r.state.eearh == e.eearh
              && OnlyControlRegistersDiffer(r.state, e)
    ensures r.status == DriverIsOk ==>
              && AddressIs(r.state, initialAddress)
              && r.state.eerie == interrupt && OnlyControlRegistersDiffer(r.state, e)
  {
    AddressSplitJoin(initialAddress);
    if initialAddress <= EepromLastLocation then
      Result(DriverIsOk, e.(eearl := AddressLow(initialAddress), eearh := AddressHigh(initialAddress), eerie := interrupt))
    else
      Result(EepromAddressNotAvailable, e.(eerie := interrupt))
  }

  /** EEPROM_init with the configured constants: address 0, interrupt off. */
  function Init(e: Eeprom): (r: Result<Eeprom>)
    ensures r.status == DriverIsOk
    ensures AddressIs(r.state, EepromInitialAddress)
    ensures r.state.eerie == EepromInterruptDisable
    ensures OnlyControlRegistersDiffer(r.state, e)
  {
    InitWith(e, EepromInitialAddress, EepromInterrupt)
  }

  /** EEPROM_enable_interrupt: global interrupts on, ready interrupt on,
      nothing else changes. */
  function EnableInterrupt(e: Eeprom): (r: Eeprom)
    ensures r.globalInterrupt && r.eerie == EepromInterruptEnable
    ensures r.(globalInterrupt := e.globalInterrupt, eerie := e.eerie) == e
  {
    e.(globalInterrupt := true, eerie := EepromInterruptEnable)
  }

  /** EEPROM_disable_interrupt: ready interrupt off; the global flag is left
      as it is. */
  function DisableInterrupt(e: Eeprom): (r: Eeprom)
    ensures r.eerie == EepromInterruptDisable
    ensures r.(eerie := e.eerie) == e
  {
    e.(eerie := EepromInterruptDisable)
  }

  /** Enabling then disabling leaves the global interrupt flag on: the two
      calls are not inverses. */
  lemma {:induction false} DisableAfterEnableKeepsGlobalInterrupt(e: Eeprom)
    ensures var r := DisableInterrupt(EnableInterrupt(e));
            r.globalInterrupt && r.eerie == EepromInterruptDisable
            && r.(globalInterrupt := e.globalInterrupt, eerie := e.eerie) == e
  {
  }

  // ---------------------------------------------------------------------------
  // Single byte

  /**
   * EEPROM_write_byte. Global interrupts are disabled first and re-enabled
   * only on the success path, so an out-of-range address leaves them off.
   */
  function WriteByte(e: Eeprom, address: uint16, byte: bv8): (r: Result<Eeprom>)
    ensures address <= EepromLastLocation ==>
              && r.status == EepromDataIsWritten
              && r.state.mem[address] == byte
              && (forall i | 0 <= i < EepromSize && i != address :: r.state.mem[i] == e.mem[i])
              && r.state.globalInterrupt
              && AddressIs(r.state, address)
    ensures address > EepromLastLocation ==>
              && r.status == EepromAddressNotAvailable
              && r.state == e.(globalInterrupt := false)
    ensures r.state.writeNext == e.writeNext && r.state.readNext == e.readNext
    ensures r.state.eerie == e.eerie
  {
    var masked := e.(globalInterrupt := false);
    if address <= EepromLastLocation then
      AddressSplitJoin(address);
      Result(EepromDataIsWritten,
             masked.(eearl := AddressLow(address), eearh := AddressHigh(address), eedr := byte,
                     mem := masked.mem[address := byte], globalInterrupt := true))
    else
      Result(EepromAddressNotAvailable, masked)
  }

  // ---------------------------------------------------------------------------
  // Blocks: closed-form reference

  /** Where the block loop tests the location against the end of the EEPROM:
      `AsWritten` tests the value left by the previous call and resets it to
      the base address only afterwards, inside the loop; `Corrected` resets
      first and tests the location actually about to be used. */
  datatype LocationGuard = AsWritten | Corrected

  /** The location a block call starts from: the base address for a new
      block (`*actual_length` still EEPROM_NO_DATA), else where the previous
      call stopped. */
  function StartOf(base: uint16, next: uint16, done: uint16): uint16 {
    if done == EepromNoData then base else next
  }

  /** Whether the block loop runs at least once. */
  predicate LoopRuns(guard: LocationGuard, next: uint16, base: uint16, length: uint16, done: uint16) {
    match guard
    case AsWritten => done < length && next <= EepromLastLocation
    case Corrected => done < length && StartOf(base, next, done) <= EepromLastLocation
  }

  /** The location the first iteration uses, or None when the loop body does
      not run at all. */
  function BlockStart(guard: LocationGuard, next: uint16, base: uint16, length: uint16, done: uint16): (s: Option<nat>)
    requires base <= EepromLastLocation
    ensures s.Some? <==> LoopRuns(guard, next, base, length, done)
    ensures s.Some? ==> s.value == StartOf(base, next, done) <= EepromLastLocation && done < length
  {
    var location := StartOf(base, next, done);
    match guard
    case AsWritten =>
      if done < length && next <= EepromLastLocation then Some(location) else None
    case Corrected =>
      if done < length && location <= EepromLastLocation then Some(location) else None
  }

  /** How many bytes the loop moves from `start`: it stops at the end of the
      block or past the last cell, whichever comes first. */
  function BlockCount(start: nat, length: uint16, done: uint16): (n: nat)
    requires start <= EepromLastLocation && done < length
    ensures 1 <= n <= length - done && start + n <= EepromSize
    ensures done + n < length ==> start + n == EepromSize
  {
    Min(length - done, EepromSize - start)
  }

  /** `dst` with `k` elements of `src` from index `from` copied over it at `at`. */
  function Overlay(dst: seq<bv8>, at: nat, src: seq<bv8>, from: nat, k: nat): (r: seq<bv8>)
    requires at + k <= |dst| && from + k <= |src|
    ensures |r| == |dst|
    ensures forall i | 0 <= i < |dst| :: r[i] == if at <= i < at + k then src[from + i - at] else dst[i]
    decreases k
  {
    if k == 0 then dst
    else Overlay(dst, at, src, from, k - 1)[at + k - 1 := src[from + k - 1]]
  }

  /** The driver after `k` >= 1 loop iterations of a block write from `start`,
      taking bytes from `d` at index `from`. */
  function Stored(e: Eeprom, start: nat, d: seq<bv8>, from: nat, k: nat): Eeprom
    requires 1 <= k && start + k <= EepromSize && from + k <= |d|
  {
    var last := start + k - 1;
    e.(mem := Overlay(e.mem, start, d, from, k),
       eearl := AddressLow(last), eearh := AddressHigh(last), eedr := d[from + k - 1],
       globalInterrupt := true, writeNext := start + k)
  }

  /** The driver after `k` >= 1 loop iterations of a block read from `start`. */
  function Loaded(e: Eeprom, start: nat, k: nat): Eeprom
    requires 1 <= k && start + k <= EepromSize
  {
    var last := start + k - 1;
    e.(eearl := AddressLow(last), eearh := AddressHigh(last), eedr := e.mem[last], readNext := start + k)
  }

  function WriteStatus(done: nat, length: uint16): Status {
    if done >= length then EepromDataIsWritten else EepromDataIsNotCompletelyWritten
  }

  function ReadStatus(done: nat, length: uint16): Status {
    if done >= length then EepromDataIsRead else EepromDataIsNotCompletelyRead
  }

  /** What a block call returns: status, driver state, the caller's buffer and
      the caller's `*actual_length` (None where the pointer was NULL). */
  datatype Transfer = Transfer(status: Status, dev: Eeprom, data: Option<seq<bv8>>, actual: Option<uint16>)

  /**
   * EEPROM_write_data in closed form. NULL pointers and a base address past
   * the EEPROM are refused with nothing changed; otherwise the loop either
   * does not run or writes BlockCount consecutive bytes of the caller's
   * buffer, from index `*actual_length`, at consecutive cells from its start
   * location (WriteBlockOutcome, WriteBlockContents).
   */
  function WriteDataModel(guard: LocationGuard, e: Eeprom, base: uint16, data: Option<seq<bv8>>,
                          length: uint16, actual: Option<uint16>): (r: Transfer)
    requires data.Some? ==> |data.value| >= length
    ensures data.None? || actual.None? ==> r == Transfer(PtrUsedIsNullPtr, e, data, actual)
    ensures data.Some? && actual.Some? && base > EepromLastLocation ==>
              r == Transfer(EepromAddressNotAvailable, e, data, actual)
    ensures r.data == data
  {
    if data.None? || actual.None? then
      Transfer(PtrUsedIsNullPtr, e, data, actual)
    else if base > EepromLastLocation then
      Transfer(EepromAddressNotAvailable, e, data, actual)
    else
      var done := actual.value;
      match BlockStart(guard, e.writeNext, base, length, done)
      case None =>
        Transfer(WriteStatus(done, length), e, data, actual)
      case Some(s) =>
        var n := BlockCount(s, length, done);
        Transfer(WriteStatus(done + n, length), Stored(e, s, data.value, done, n), data, Some(done + n))
  }

  /**
   * EEPROM_read_data in closed form: the mirror image of the block write,
   * copying cells into the caller's buffer (ReadBlockOutcome,
   * ReadBlockContents).
   */
  function ReadDataModel(guard: LocationGuard, e: Eeprom, base: uint16, data: Option<seq<bv8>>,
                         length: uint16, actual: Option<uint16>): (r: Transfer)
    requires data.Some? ==> |data.value| >= length
    ensures data.None? || actual.None? ==> r == Transfer(PtrUsedIsNullPtr, e, data, actual)
    ensures data.Some? && actual.Some? && base > EepromLastLocation ==>
              r == Transfer(EepromAddressNotAvailable, e, data, actual)
    ensures r.dev.mem == e.mem && r.dev.writeNext == e.writeNext
    ensures r.dev.globalInterrupt == e.globalInterrupt && r.dev.eerie == e.eerie
  {
    if data.None? || actual.None? then
      Transfer(PtrUsedIsNullPtr, e, data, actual)
    else if base > EepromLastLocation then
      Transfer(EepromAddressNotAvailable, e, data, actual)
    else
      var done := actual.value;
      match BlockStart(guard, e.readNext, base, length, done)
      case None =>
        Transfer(ReadStatus(done, length), e, data, actual)
      case Some(s) =>
        var n := BlockCount(s, length, done);
        Transfer(ReadStatus(done + n, length), Loaded(e, s, n),
                 Some(Overlay(data.value, done, e.mem, s, n)), Some(done + n))
  }

  /** Whether a block write moves any byte, and what it reports: it moves
      one exactly when the loop guard holds on entry, reports a complete
      write exactly when `*actual_length` reaches the length, and otherwise
      leaves `next_location` past the EEPROM. */
  lemma {:induction false} WriteBlockOutcome(guard: LocationGuard, e: Eeprom, base: uint16, d: seq<bv8>, length: uint16, done: uint16)
    requires base <= EepromLastLocation && |d| >= length
    ensures var r := WriteDataModel(guard, e, base, Some(d), length, Some(done));
            && r.actual.Some? && done <= r.actual.value <= Max(done, length)
            && (r.actual.value > done <==> LoopRuns(guard, e.writeNext, base, length, done))
            && (r.actual.value == done ==> r.dev == e)
            && (r.status == EepromDataIsWritten <==> r.actual.value >= length)
            && (r.status != EepromDataIsWritten ==>
                  r.status == EepromDataIsNotCompletelyWritten && r.dev.writeNext > EepromLastLocation)
  {
  }

  /** A block write that runs stores byte `done + j` of the buffer at cell
      `s + j` for every `j` below the count it reports, where `s` is the base
      address for a new block and `next_location` otherwise, keeps every
      other cell, and stops at the end of the block or past the last cell,
      with `next_location` just past the bytes written. The driver is then
      the state of that many iterations (`Stored`). */
  lemma {:induction false} WriteBlockContents(guard: LocationGuard, e: Eeprom, base: uint16, d: seq<bv8>, length: uint16, done: uint16)
    requires base <= EepromLastLocation && |d| >= length
    requires LoopRuns(guard, e.writeNext, base, length, done)
    ensures var r := WriteDataModel(guard, e, base, Some(d), length, Some(done));
            var s := StartOf(base, e.writeNext, done);
            var n := Min(length - done, EepromSize - s);
            && s <= EepromLastLocation && 1 <= n && done + n <= |d|
            && r.actual == Some(done + n)
            && r.dev == Stored(e, s, d, done, n)
    ensures var r := WriteDataModel(guard, e, base, Some(d), length, Some(done));
            var s := StartOf(base, e.writeNext, done);
            && r.actual.Some? && done < r.actual.value <= length
            && var n := r.actual.value - done;
               && (r.actual.value == length || s + n == EepromSize)
               && r.dev.writeNext == s + n
               && (forall i | 0 <= i < EepromSize ::
                     r.dev.mem[i] == if s <= i < s + n then d[done + i - s] else e.mem[i])
               && AddressIs(r.dev, s + n - 1) && r.dev.eedr == d[done + n - 1]
               && r.dev.globalInterrupt && r.dev.readNext == e.readNext
  {
    var s := StartOf(base, e.writeNext, done);
    assert BlockStart(guard, e.writeNext, base, length, done) == Some(s);
    StoredFacts(e, s, d, done, Min(length - done, EepromSize - s));
  }

  /** After `k` iterations of a block write from `s`: `k` bytes of the buffer
      at consecutive cells from `s`, every other cell unchanged,
      `next_location` just past them, the address and data registers holding
      the last byte written, global interrupts on. */
  lemma {:induction false} StoredFacts(e: Eeprom, s: nat, d: seq<bv8>, from: nat, k: nat)
    requires 1 <= k && s + k <= EepromSize && from + k <= |d|
    ensures var t := Stored(e, s, d, from, k);
            && t.writeNext == s + k
            && (forall i | 0 <= i < EepromSize ::
                  t.mem[i] == if s <= i < s + k then d[from + i - s] else e.mem[i])
            && AddressIs(t, s + k - 1) && t.eedr == d[from + k - 1]
            && t.globalInterrupt
            && t.readNext == e.readNext && t.eerie == e.eerie
  {
    AddressSplitJoin(s + k - 1);
  }

  /** Whether a block read moves any byte, and what it reports. */
  lemma {:induction false} ReadBlockOutcome(guard: LocationGuard, e: Eeprom, base: uint16, d: seq<bv8>, length: uint16, done: uint16)
    requires base <= EepromLastLocation && |d| >= length
    ensures var r := ReadDataModel(guard, e, base, Some(d), length, Some(done));
            && r.actual.Some? && done <= r.actual.value <= Max(done, length)
            && (r.actual.value > done <==> LoopRuns(guard, e.readNext, base, length, done))
            && (r.actual.value == done ==> r.dev == e && r.data == Some(d))
            && (r.status == EepromDataIsRead <==> r.actual.value >= length)
            && (r.status != EepromDataIsRead ==>
                  r.status == EepromDataIsNotCompletelyRead && r.dev.readNext > EepromLastLocation)
  {
  }

  /** A block read that runs puts cell `s + j` into the buffer at index
      `done + j` for every `j` below the count it reports, where `s` is the
      base address for a new block and `next_location` otherwise, keeps
      every other buffer element, and stops at the end of the block or past
      the last cell, with `next_location` just past the cells read. The
      driver is then the state of that many iterations (`Loaded`). */
  lemma {:induction false} ReadBlockContents(guard: LocationGuard, e: Eeprom, base: uint16, d: seq<bv8>, length: uint16, done: uint16)
    requires base <= EepromLastLocation && |d| >= length
    requires LoopRuns(guard, e.readNext, base, length, done)
    ensures var r := ReadDataModel(guard, e, base, Some(d), length, Some(done));
            var s := StartOf(base, e.readNext, done);
            var n := Min(length - done, EepromSize - s);
            && s <= EepromLastLocation && 1 <= n && done + n <= |d|
            && r.actual == Some(done + n)
            && r.dev == Loaded(e, s, n)
            && r.data == Some(Overlay(d, done, e.mem, s, n))
    ensures var r := ReadDataModel(guard, e, base, Some(d), length, Some(done));
            var s := StartOf(base, e.readNext, done);
            && r.actual.Some? && done < r.actual.value <= length
            && var n := r.actual.value - done;
               && (r.actual.value == length || s + n == EepromSize)
               && r.dev.readNext == s + n
               && r.data.Some? && |r.data.value| == |d|
               && (forall j | 0 <= j < |d| ::
                     r.data.value[j] == if done <= j < done + n then e.mem[s + j - done] else d[j])
               && AddressIs(r.dev, s + n - 1) && r.dev.eedr == e.mem[s + n - 1]
               && r.dev.mem == e.mem && r.dev.writeNext == e.writeNext
  {
    var s := StartOf(base, e.readNext, done);
    assert BlockStart(guard, e.readNext, base, length, done) == Some(s);
    LoadedFacts(e, s, Min(length - done, EepromSize - s));
  }

  /** After `k` iterations of a block read from `s`: `next_location` just
      past the cells read, the address and data registers holding the last
      cell read, nothing else changed. */
  lemma {:induction false} LoadedFacts(e: Eeprom, s: nat, k: nat)
    requires 1 <= k && s + k <= EepromSize
    ensures var t := Loaded(e, s, k);
            && t.readNext == s + k
            && AddressIs(t, s + k - 1) && t.eedr == e.mem[s + k - 1]
            && t.mem == e.mem && t.writeNext == e.writeNext
            && t.globalInterrupt == e.globalInterrupt && t.eerie == e.eerie
  {
    AddressSplitJoin(s + k - 1);
  }

  // ---------------------------------------------------------------------------
  // Blocks: the loops

  /** One more write iteration extends the closed form by one byte. */
  lemma {:induction false} StoreFirst(e: Eeprom, s: nat, d: seq<bv8>, from: nat)
    requires s <= EepromLastLocation && from < |d|
    ensures var w := WriteByte(e.(writeNext := s), s, d[from]);
            w.status == EepromDataIsWritten && w.state.(writeNext := s + 1) == Stored(e, s, d, from, 1)
  {
    OverlayExtend(e.mem, s, d, from, 0);
    var w := WriteByte(e.(writeNext := s), s, d[from]);
    assert w.state.mem == Overlay(e.mem, s, d, from, 1);
  }

  lemma {:induction false} StoreNext(e: Eeprom, s: nat, d: seq<bv8>, from: nat, k: nat)
    requires 1 <= k && s + k <= EepromLastLocation && from + k < |d|
    ensures var w := WriteByte(Stored(e, s, d, from, k), s + k, d[from + k]);
            w.status == EepromDataIsWritten && w.state.(writeNext := s + k + 1) == Stored(e, s, d, from, k + 1)
  {
    var t := Stored(e, s, d, from, k);
    OverlayExtend(e.mem, s, d, from, k);
    var w := WriteByte(t, s + k, d[from + k]);
    assert w.state.mem == Overlay(e.mem, s, d, from, k + 1);
    assert w.state == t.(mem := w.state.mem, eearl := AddressLow(s + k), eearh := AddressHigh(s + k),
                         eedr := d[from + k], globalInterrupt := true);
  }

  /** Copying one more element extends an overlay by one position. */
  lemma {:induction false} OverlayExtend(dst: seq<bv8>, at: nat, src: seq<bv8>, from: nat, k: nat)
    requires at + k < |dst| && from + k < |src|
    ensures Overlay(dst, at, src, from, k)[at + k := src[from + k]] == Overlay(dst, at, src, from, k + 1)
  {
  }

  /** One iteration of the write loop, from the state after `done - done0`
      iterations: the byte is accepted, and the state after it is the closed
      form one iteration further. */
  lemma {:induction false} WriteLoopStep(e: Eeprom, s: nat, base: uint16, d: seq<bv8>, length: uint16,
                      done0: uint16, done: uint16, dev: Eeprom)
    requires base <= EepromLastLocation && |d| >= length
    requires BlockStart(AsWritten, e.writeNext, base, length, done0) == Some(s)
    requires || (done == done0 && dev == e)
             || (done0 < done <= done0 + BlockCount(s, length, done0)
                 && dev == Stored(e, s, d, done0, done - done0))
    requires done < length && dev.writeNext <= EepromLastLocation
    ensures var at := if done == EepromNoData then dev.(writeNext := base) else dev;
            var w := WriteByte(at, at.writeNext, d[done]);
            && w.status == EepromDataIsWritten
            && done + 1 <= done0 + BlockCount(s, length, done0)
            && w.state.(writeNext := at.writeNext + 1) == Stored(e, s, d, done0, done + 1 - done0)
  {
    if done == done0 {
      assert (if done == EepromNoData then dev.(writeNext := base) else dev) == e.(writeNext := s);
      StoreFirst(e, s, d, done0);
    } else {
      StoreNext(e, s, d, done0, done - done0);
    }
  }

  /** One iteration of the read loop, in the same sense. */
  lemma {:induction false} ReadLoopStep(e: Eeprom, s: nat, base: uint16, buf0: seq<bv8>, length: uint16,
                     done0: uint16, done: uint16, dev: Eeprom, buf: seq<bv8>)
    requires base <= EepromLastLocation && |buf0| >= length && |buf| == |buf0|
    requires BlockStart(AsWritten, e.readNext, base, length, done0) == Some(s)
    requires || (done == done0 && dev == e && buf == buf0)
             || (done0 < done <= done0 + BlockCount(s, length, done0)
                 && dev == Loaded(e, s, done - done0)
                 && buf == Overlay(buf0, done0, e.mem, s, done - done0))
    requires done < length && dev.readNext <= EepromLastLocation
    ensures var at := if done == EepromNoData then dev.(readNext := base) else dev;
            var loc := at.readNext;
            && loc <= EepromLastLocation
            && done + 1 <= done0 + BlockCount(s, length, done0)
            && at.(eearl := AddressLow(loc), eearh := AddressHigh(loc), eedr := at.mem[loc], readNext := loc + 1)
               == Loaded(e, s, done + 1 - done0)
            && buf[done := at.mem[loc]] == Overlay(buf0, done0, e.mem, s, done + 1 - done0)
  {
    if done == done0 {
      OverlayExtend(buf0, done0, e.mem, s, 0);
    } else {
      OverlayExtend(buf0, done0, e.mem, s, done - done0);
    }
  }

  /** When a block loop stops after starting at `s`, it has moved exactly
      BlockCount bytes. */
  lemma {:induction false} LoopExit(s: nat, length: uint16, done0: uint16, done: uint16, next: nat)
    requires s <= EepromLastLocation && done0 < length
    requires done0 <= done <= done0 + BlockCount(s, length, done0)
    requires done == done0 ==> next <= EepromLastLocation
    requires done > done0 ==> next == s + (done - done0)
    requires !(done < length && next <= EepromLastLocation)
    ensures done == done0 + BlockCount(s, length, done0)
  {
  }

  /** Where the write loop stops, its state is the closed form's. */
  lemma {:induction false} WriteLoopExit(e: Eeprom, base: uint16, d: seq<bv8>, length: uint16, done0: uint16, done: uint16, dev: Eeprom)
    requires base <= EepromLastLocation && |d| >= length
    requires var start := BlockStart(AsWritten, e.writeNext, base, length, done0);
             && (start.None? ==> done == done0 && dev == e)
             && (start.Some? ==>
                   || (done == done0 && dev == e)
                   || (done0 < done <= done0 + BlockCount(start.value, length, done0)
                       && dev == Stored(e, start.value, d, done0, done - done0)))
    requires !(done < length && dev.writeNext <= EepromLastLocation)
    ensures Transfer(WriteStatus(done, length), dev, Some(d), Some(done))
            == WriteDataModel(AsWritten, e, base, Some(d), length, Some(done0))
  {
    var start := BlockStart(AsWritten, e.writeNext, base, length, done0);
    if start.Some? {
      LoopExit(start.value, length, done0, done, dev.writeNext);
    }
  }

  /** Where the read loop stops, its state is the closed form's. */
  lemma {:induction false} ReadLoopExit(e: Eeprom, base: uint16, d: seq<bv8>, length: uint16, done0: uint16, done: uint16,
                     dev: Eeprom, buf: seq<bv8>)
    requires base <= EepromLastLocation && |d| >= length
    requires var start := BlockStart(AsWritten, e.readNext, base, length, done0);
             && (start.None? ==> done == done0 && dev == e && buf == d)
             && (start.Some? ==>
                   || (done == done0 && dev == e && buf == d)
                   || (done0 < done <= done0 + BlockCount(start.value, length, done0)
                       && dev == Loaded(e, start.value, done - done0)
                       && buf == Overlay(d, done0, e.mem, start.value, done - done0)))
    requires !(done < length && dev.readNext <= EepromLastLocation)
    ensures Transfer(ReadStatus(done, length), dev, Some(buf), Some(done))
            == ReadDataModel(AsWritten, e, base, Some(d), length, Some(done0))
  {
    var start := BlockStart(AsWritten, e.readNext, base, length, done0);
    if start.Some? {
      var s := start.value;
      LoopExit(s, length, done0, done, dev.readNext);
      ReadLoopRan(e, base, d, length, done0, s, done - done0);
    }
  }

  /** The closed form of a block read whose loop ran `n` times from `s`. */
  lemma {:induction false} ReadLoopRan(e: Eeprom, base: uint16, d: seq<bv8>, length: uint16, done0: uint16, s: nat, n: nat)
    requires base <= EepromLastLocation && |d| >= length
    requires BlockStart(AsWritten, e.readNext, base, length, done0) == Some(s)
    requires n == BlockCount(s, length, done0)
    ensures Transfer(ReadStatus(done0 + n, length), Loaded(e, s, n), Some(Overlay(d, done0, e.mem, s, n)), Some(done0 + n))
            == ReadDataModel(AsWritten, e, base, Some(d), length, Some(done0))
  {
  }

  /**
   * EEPROM_write_data as the super-loop: while the block is unfinished and
   * the stored `next_location` is inside the EEPROM, (re)start at the base
   * address for a new block, write one byte, advance. It computes exactly
   * the closed form.
   */
  method WriteData(e: Eeprom, base: uint16, data: Option<seq<bv8>>, length: uint16, actual: Option<uint16>)
    returns (r: Transfer)
    requires data.Some? ==> |data.value| >= length
    ensures r == WriteDataModel(AsWritten, e, base, data, length, actual)
  {
    if data.None? || actual.None? {
      return Transfer(PtrUsedIsNullPtr, e, data, actual);
    }
    if base > EepromLastLocation {
      return Transfer(EepromAddressNotAvailable, e, data, actual);
    }
    var d := data.value;
    var done: uint16 := actual.value;
    var dev := e;
    ghost var start := BlockStart(AsWritten, e.writeNext, base, length, done);
    ghost var done0 := done;
    while done < length && dev.writeNext <= EepromLastLocation
      invariant start.None? ==> done == done0 && dev == e
      invariant start.Some? ==>
                  || (done == done0 && dev == e)
                  || (done0 < done <= done0 + BlockCount(start.value, length, done0)
                      && dev == Stored(e, start.value, d, done0, done - done0))
      decreases length - done
    {
      assert start.Some?;
      WriteLoopStep(e, start.value, base, d, length, done0, done, dev);
      if done == EepromNoData {
        dev := dev.(writeNext := base);
      }
      var w := WriteByte(dev, dev.writeNext, d[done]);
      dev := w.state;
      if w.status == EepromDataIsWritten {
        dev := dev.(writeNext := dev.writeNext + 1);
        done := done + 1;
      }
    }
    WriteLoopExit(e, base, d, length, done0, done, dev);
    r := Transfer(WriteStatus(done, length), dev, data, Some(done));
  }

  /**
   * EEPROM_read_data as the super-loop: the same walk as the block write,
   * latching each cell through EEDR into the caller's buffer.
   */
  method ReadData(e: Eeprom, base: uint16, data: Option<seq<bv8>>, length: uint16, actual: Option<uint16>)
    returns (r: Transfer)
    requires data.Some? ==> |data.value| >= length
    ensures r == ReadDataModel(AsWritten, e, base, data, length, actual)
  {
    if data.None? || actual.None? {
      return Transfer(PtrUsedIsNullPtr, e, data, actual);
    }
    if base > EepromLastLocation {
      return Transfer(EepromAddressNotAvailable, e, data, actual);
    }
    var buf := data.value;
    var done: uint16 := actual.value;
    var dev := e;
    ghost var start := BlockStart(AsWritten, e.readNext, base, length, done);
    ghost var done0 := done;
    while done < length && dev.readNext <= EepromLastLocation
      invariant |buf| == |data.value|
      invariant start.None? ==> done == done0 && dev == e && buf == data.value
      invariant start.Some? ==>
                  || (done == done0 && dev == e && buf == data.value)
                  || (done0 < done <= done0 + BlockCount(start.value, length, done0)
                      && dev == Loaded(e, start.value, done - done0)
                      && buf == Overlay(data.value, done0, e.mem, start.value, done - done0))
      decreases length - done
    {
      assert start.Some?;
      ReadLoopStep(e, start.value, base, data.value, length, done0, done, dev, buf);
      if done == EepromNoData {
        dev := dev.(readNext := base);
      }
      var location := dev.readNext;
      // the address goes to EEARH:EEARL, and setting EERE latches the
      // addressed cell into EEDR
      dev := dev.(eearl := AddressLow(location), eearh := AddressHigh(location), eedr := dev.mem[location],
                  readNext := location + 1);
      buf := buf[done := dev.eedr];
      done := done + 1;
    }
    ReadLoopExit(e, base, data.value, length, done0, done, dev, buf);
    r := Transfer(ReadStatus(done, length), dev, Some(buf), Some(done));
  }

  // ---------------------------------------------------------------------------
  // Properties of the block transfers

  /** Writing a block and reading it back from the same base address returns
      the written bytes, provided neither stored `next_location` has run past
      the end of the EEPROM and the block fits. */
  lemma {:induction false} WriteThenReadBack(e: Eeprom, base: uint16, d: seq<bv8>, length: uint16, buf: seq<bv8>)
    requires base <= EepromLastLocation && base as int + length as int <= EepromSize
    requires |d| >= length && |buf| >= length
    requires e.writeNext <= EepromLastLocation && e.readNext <= EepromLastLocation
    ensures var w := WriteDataModel(AsWritten, e, base, Some(d), length, Some(0));
            var r := ReadDataModel(AsWritten, w.dev, base, Some(buf), length, Some(0));
            && w.status == EepromDataIsWritten && w.actual == Some(length)
            && r.status == EepromDataIsRead && r.actual == Some(length)
            && r.data.Some? && r.data.value[..length] == d[..length]
            && r.dev.mem == w.dev.mem
  {
    RoundTrip(AsWritten, e, base, d, length, buf);
  }

  /** The corrected loops round-trip any block that fits, from any driver
      state. */
  lemma {:induction false} CorrectedWriteThenReadBack(e: Eeprom, base: uint16, d: seq<bv8>, length: uint16, buf: seq<bv8>)
    requires base <= EepromLastLocation && base as int + length as int <= EepromSize
    requires |d| >= length && |buf| >= length
    ensures var w := WriteDataModel(Corrected, e, base, Some(d), length, Some(0));
            var r := ReadDataModel(Corrected, w.dev, base, Some(buf), length, Some(0));
            && w.status == EepromDataIsWritten && w.actual == Some(length)
            && r.status == EepromDataIsRead && r.actual == Some(length)
            && r.data.Some? && r.data.value[..length] == d[..length]
  {
    RoundTrip(Corrected, e, base, d, length, buf);
  }

  /** The round trip for either guard, given that both loops run. */
  lemma {:induction false} RoundTrip(guard: LocationGuard, e: Eeprom, base: uint16, d: seq<bv8>, length: uint16, buf: seq<bv8>)
    requires base <= EepromLastLocation && base as int + length as int <= EepromSize
    requires |d| >= length && |buf| >= length
    requires guard == AsWritten ==> e.writeNext <= EepromLastLocation && e.readNext <= EepromLastLocation
    ensures var w := WriteDataModel(guard, e, base, Some(d), length, Some(0));
            var r := ReadDataModel(guard, w.dev, base, Some(buf), length, Some(0));
            && w.status == EepromDataIsWritten && w.actual == Some(length)
            && r.status == EepromDataIsRead && r.actual == Some(length)
            && r.data.Some? && r.data.value[..length] == d[..length]
  {
    var w := WriteDataModel(guard, e, base, Some(d), length, Some(0));
    WriteBlockOutcome(guard, e, base, d, length, 0);
    if length > 0 {
      WriteBlockContents(guard, e, base, d, length, 0);
      ReadBackStored(guard, e, base, d, length, buf);
    } else {
      ReadBlockOutcome(guard, w.dev, base, buf, length, 0);
    }
  }

  /** Reading a block back from the state a complete block write left. */
  lemma {:induction false} ReadBackStored(guard: LocationGuard, e: Eeprom, base: uint16, d: seq<bv8>, length: uint16, buf: seq<bv8>)
    requires base <= EepromLastLocation && base as int + length as int <= EepromSize
    requires 0 < length && |d| >= length && |buf| >= length
    requires guard == AsWritten ==> e.readNext <= EepromLastLocation
    ensures var r := ReadDataModel(guard, Stored(e, base, d, 0, length), base, Some(buf), length, Some(0));
            && r.status == EepromDataIsRead && r.actual == Some(length)
            && r.data.Some? && r.data.value[..length] == d[..length]
  {
    var t := Stored(e, base, d, 0, length);
    ReadWholeBlock(guard, t, base, buf, length);
    StoredBlock(e, base, d, length);
    OverlayPrefix(buf, t.mem, base, d, length);
  }

  /** A block read with the whole block inside the EEPROM and the loop
      running reads it in one call. */
  lemma {:induction false} ReadWholeBlock(guard: LocationGuard, t: Eeprom, base: uint16, buf: seq<bv8>, length: uint16)
    requires base <= EepromLastLocation && base as int + length as int <= EepromSize
    requires 0 < length && |buf| >= length
    requires guard == AsWritten ==> t.readNext <= EepromLastLocation
    ensures var r := ReadDataModel(guard, t, base, Some(buf), length, Some(0));
            && r.status == EepromDataIsRead && r.actual == Some(length)
            && r.data == Some(Overlay(buf, 0, t.mem, base, length))
  {
    ReadBlockOutcome(guard, t, base, buf, length, 0);
    ReadBlockContents(guard, t, base, buf, length, 0);
  }

  /** A complete block write from `base` leaves the block at base, base+1, ... */
  lemma {:induction false} StoredBlock(e: Eeprom, base: nat, d: seq<bv8>, length: nat)
    requires 0 < length && base + length <= EepromSize && |d| >= length
    ensures forall i | 0 <= i < length :: Stored(e, base, d, 0, length).mem[base + i] == d[i]
  {
    var t := Stored(e, base, d, 0, length);
    forall i | 0 <= i < length
      ensures t.mem[base + i] == d[i]
    {
      StoredFacts(e, base, d, 0, length);
    }
  }

  /** Overlaying `length` cells from `at` that hold `d` onto the front of a
      buffer gives `d` there. */
  lemma {:induction false} OverlayPrefix(buf: seq<bv8>, src: seq<bv8>, at: nat, d: seq<bv8>, length: nat)
    requires length <= |buf| && at + length <= |src| && length <= |d|
    requires forall i | 0 <= i < length :: src[at + i] == d[i]
    ensures Overlay(buf, 0, src, at, length)[..length] == d[..length]
  {
    var got := Overlay(buf, 0, src, at, length);
    forall i | 0 <= i < length
      ensures got[i] == d[i]
    {
      assert got[i] == src[at + i];
    }
  }

  /** The stored location only ever leaves the EEPROM range upwards: once the
      as-written block write finds it past the last cell, the call moves no
      byte and leaves it there, so every later call is refused as well. */
  lemma {:induction false} StaleWriteLocationIsPermanent(e: Eeprom, base: uint16, d: seq<bv8>, length: uint16, done: uint16)
    requires e.writeNext > EepromLastLocation && base <= EepromLastLocation && |d| >= length
    ensures var w := WriteDataModel(AsWritten, e, base, Some(d), length, Some(done));
            && w.dev == e && w.actual == Some(done)
            && (done < length ==> w.status == EepromDataIsNotCompletelyWritten)
  {
    WriteBlockOutcome(AsWritten, e, base, d, length, done);
  }

  /** A concrete scenario for the as-written block write: a one-byte block at the
      last cell completes, but the next one-byte block at address 0, which
      fits easily, writes nothing and reports an incomplete write. */
  lemma {:induction false} LastCellBlockStrandsNextBlock(e: Eeprom, x: bv8, y: bv8)
    requires e.writeNext <= EepromLastLocation
    ensures var w1 := WriteDataModel(AsWritten, e, 1023, Some([x]), 1, Some(0));
            var w2 := WriteDataModel(AsWritten, w1.dev, 0, Some([y]), 1, Some(0));
            && w1.status == EepromDataIsWritten && w1.dev.mem[1023] == x
            && w1.dev.writeNext > EepromLastLocation
            && w2.status == EepromDataIsNotCompletelyWritten
            && w2.actual == Some(0)
            && w2.dev == w1.dev
  {
    var w1 := WriteDataModel(AsWritten, e, 1023, Some([x]), 1, Some(0));
    WriteBlockOutcome(AsWritten, e, 1023, [x], 1, 0);
    WriteBlockContents(AsWritten, e, 1023, [x], 1, 0);
    StoredFacts(e, 1023, [x], 0, 1);
    StaleWriteLocationIsPermanent(w1.dev, 0, [y], 1, 0);
  }

  /** With the location reset before the guard, every new block whose base
      address exists is written from its base, whatever earlier calls left in
      `next_location`: min(length, 1024 - base) bytes land at base, base+1, ... */
  lemma {:induction false} CorrectedWriteStartsEveryNewBlock(e: Eeprom, base: uint16, d: seq<bv8>, length: uint16)
    requires base <= EepromLastLocation && 0 < length && |d| >= length
    ensures var w := WriteDataModel(Corrected, e, base, Some(d), length, Some(0));
            var n := Min(length, EepromSize - base);
            && w.actual == Some(n)
            && (forall k | 0 <= k < n :: w.dev.mem[base + k] == d[k])
            && (w.status == EepromDataIsWritten <==> base as int + length as int <= EepromSize)
  {
    var w := WriteDataModel(Corrected, e, base, Some(d), length, Some(0));
    var n := Min(length, EepromSize - base);
    assert && w.actual == Some(n) && w.dev == Stored(e, base, d, 0, n)
           && (w.status == EepromDataIsWritten <==> base as int + length as int <= EepromSize)
    by {
      WriteBlockOutcome(Corrected, e, base, d, length, 0);
      WriteBlockContents(Corrected, e, base, d, length, 0);
    }
    assert forall i | base <= i < base + n :: w.dev.mem[i] == d[i - base] by {
      StoredFacts(e, base, d, 0, n);
    }
    forall k | 0 <= k < n
      ensures w.dev.mem[base + k] == d[k]
    {
      assert w.dev.mem[base + k] == d[(base + k) - base];
    }
  }

  /** The corrected block write in the scenario of LastCellBlockStrandsNextBlock:
      the second block is written. */
  lemma {:induction false} CorrectedLastCellBlockThenNextBlock(e: Eeprom, x: bv8, y: bv8)
    ensures var w1 := WriteDataModel(Corrected, e, 1023, Some([x]), 1, Some(0));
            var w2 := WriteDataModel(Corrected, w1.dev, 0, Some([y]), 1, Some(0));
            && w1.status == EepromDataIsWritten && w1.dev.mem[1023] == x
            && w2.status == EepromDataIsWritten && w2.dev.mem[0] == y && w2.dev.mem[1023] == x
  {
    var w1 := WriteDataModel(Corrected, e, 1023, Some([x]), 1, Some(0));
    CorrectedWriteStartsEveryNewBlock(e, 1023, [x], 1);
    CorrectedWriteStartsEveryNewBlock(w1.dev, 0, [y], 1);
  }

  /** The same holds for the block read's own `next_location`. */
  lemma {:induction false} StaleReadLocationIsPermanent(e: Eeprom, base: uint16, buf: seq<bv8>, length: uint16, done: uint16)
    requires e.readNext > EepromLastLocation && base <= EepromLastLocation && |buf| >= length
    ensures var r := ReadDataModel(AsWritten, e, base, Some(buf), length, Some(done));
            && r.dev == e && r.actual == Some(done) && r.data == Some(buf)
            && (done < length ==> r.status == EepromDataIsNotCompletelyRead)
  {
    ReadBlockOutcome(AsWritten, e, base, buf, length, done);
  }

  /** A concrete scenario for the as-written block read: reading the last cell as a
      one-byte block succeeds, and the next one-byte read from address 0
      reads nothing and reports an incomplete read. */
  lemma {:induction false} LastCellReadStrandsNextRead(e: Eeprom, buf: seq<bv8>)
    requires e.readNext <= EepromLastLocation && |buf| >= 1
    ensures var r1 := ReadDataModel(AsWritten, e, 1023, Some(buf), 1, Some(0));
            var r2 := ReadDataModel(AsWritten, r1.dev, 0, Some(buf), 1, Some(0));
            && r1.status == EepromDataIsRead && r1.data.Some? && r1.data.value[0] == e.mem[1023]
            && r1.dev.readNext > EepromLastLocation
            && r2.status == EepromDataIsNotCompletelyRead
            && r2.actual == Some(0) && r2.data == Some(buf)
            && r2.dev == r1.dev
  {
    var r1 := ReadDataModel(AsWritten, e, 1023, Some(buf), 1, Some(0));
    ReadWholeBlock(AsWritten, e, 1023, buf, 1);
    LoadedFacts(e, 1023, 1);
    StaleReadLocationIsPermanent(r1.dev, 0, buf, 1, 0);
  }

  /** With the location reset before the guard, every new block read whose
      base address exists reads min(length, 1024 - base) cells from its base,
      whatever earlier calls left in `next_location`. */
  lemma {:induction false} CorrectedReadStartsEveryNewBlock(e: Eeprom, base: uint16, buf: seq<bv8>, length: uint16)
    requires base <= EepromLastLocation && 0 < length && |buf| >= length
    ensures var r := ReadDataModel(Corrected, e, base, Some(buf), length, Some(0));
            var n := Min(length, EepromSize - base);
            && r.actual == Some(n) && r.data.Some? && |r.data.value| == |buf|
            && (forall k | 0 <= k < n :: r.data.value[k] == e.mem[base + k])
            && (r.status == EepromDataIsRead <==> base as int + length as int <= EepromSize)
  {
    var r := ReadDataModel(Corrected, e, base, Some(buf), length, Some(0));
    var n := Min(length, EepromSize - base);
    assert && r.actual == Some(n) && r.data == Some(Overlay(buf, 0, e.mem, base, n))
           && (r.status == EepromDataIsRead <==> base as int + length as int <= EepromSize)
    by {
      ReadBlockOutcome(Corrected, e, base, buf, length, 0);
      ReadBlockContents(Corrected, e, base, buf, length, 0);
    }
  }

  /** The corrected block read in the scenario of LastCellReadStrandsNextRead: the
      second block is read. */
  lemma {:induction false} CorrectedLastCellReadThenNextRead(e: Eeprom, buf: seq<bv8>)
    requires |buf| >= 1
    ensures var r1 := ReadDataModel(Corrected, e, 1023, Some(buf), 1, Some(0));
            var r2 := ReadDataModel(Corrected, r1.dev, 0, Some(buf), 1, Some(0));
            && r1.status == EepromDataIsRead && r1.data.Some? && r1.data.value[0] == e.mem[1023]
            && r2.status == EepromDataIsRead && r2.data.Some? && r2.data.value[0] == e.mem[0]
  {
    var r1 := ReadDataModel(Corrected, e, 1023, Some(buf), 1, Some(0));
    CorrectedReadStartsEveryNewBlock(e, 1023, buf, 1);
    CorrectedReadStartsEveryNewBlock(r1.dev, 0, buf, 1);
  }
}
