/**
 * What `soft_i2c_init_ex` in src/soft_i2c.c decides: the status it returns,
 * the configuration it stores after a successful check, and the delay routine
 * and delay count it derives from the bus speed.
 */
module Setup {
  import opened SoftI2cHeader

  datatype Option<T> = None | Some(value: T)

  /** The three delay routines, by the unit of their argument. */
  datatype Granularity = Ns | Us | Ms

  /** Which of `delay_ns`, `delay_us` and `delay_ms` the caller supplied. */
  datatype Delays = Delays(ns: bool, us: bool, ms: bool)
  {
    predicate Has(g: Granularity)
    {
      match g
      case Ns => ns
      case Us => us
      case Ms => ms
    }

    predicate Any()
    {
      ns || us || ms
    }
  }

  /** Nanoseconds per unit of a delay routine's argument. */
  function Unit(g: Granularity): nat
  {
    match g
    case Ns => 1
    case Us => 1000
    case Ms => 1000000
  }

  /**
   * The status of `soft_i2c_init_ex`: 0 when every check passes, otherwise
   * the code of the first check that fails, in the order -1 (missing handle,
   * pin table or pin routine) to -9 (no delay routine).
   */
  function InitStatus(handles: bool, speed: int, xsb: int, mEndian: int, srEndian: int, sdEndian: int,
                      hasDummyWrite: int, dAddrSize: int, rAddrSize: int, dataSize: int, d: Delays): (status: int)
    ensures -9 <= status <= 0
    ensures status == -1 <==> !handles
    ensures status == -2 <==> handles && !IsLegalSpeed(speed)
    ensures status == -3 <==> handles && IsLegalSpeed(speed) && !IsBitOrder(xsb)
    ensures status == -4 <==>
      && handles && IsLegalSpeed(speed) && IsBitOrder(xsb)
      && !(IsEndian(mEndian) && IsEndian(srEndian) && IsEndian(sdEndian))
    ensures status == -5 <==>
      && handles && IsLegalSpeed(speed) && IsBitOrder(xsb)
      && IsEndian(mEndian) && IsEndian(srEndian) && IsEndian(sdEndian)
      && !(hasDummyWrite == 0 || hasDummyWrite == 1)
    ensures status == -6 <==>
      && handles && IsLegalSpeed(speed) && IsBitOrder(xsb)
      && IsEndian(mEndian) && IsEndian(srEndian) && IsEndian(sdEndian)
      && (hasDummyWrite == 0 || hasDummyWrite == 1)
      && !IsDeviceAddressSize(dAddrSize)
    ensures status == -7 <==>
      && handles && IsLegalSpeed(speed) && IsBitOrder(xsb)
      && IsEndian(mEndian) && IsEndian(srEndian) && IsEndian(sdEndian)
      && (hasDummyWrite == 0 || hasDummyWrite == 1)
      && IsDeviceAddressSize(dAddrSize) && !IsRegisterAddressSize(rAddrSize)
    ensures status == -8 <==>
      && handles && IsLegalSpeed(speed) && IsBitOrder(xsb)
      && IsEndian(mEndian) && IsEndian(srEndian) && IsEndian(sdEndian)
      && (hasDummyWrite == 0 || hasDummyWrite == 1)
      && IsDeviceAddressSize(dAddrSize) && IsRegisterAddressSize(rAddrSize) && !IsDataSize(dataSize)
    ensures status == -9 <==>
      && handles && IsLegalSpeed(speed) && IsBitOrder(xsb)
      && IsEndian(mEndian) && IsEndian(srEndian) && IsEndian(sdEndian)
      && (hasDummyWrite == 0 || hasDummyWrite == 1)
      && IsDeviceAddressSize(dAddrSize) && IsRegisterAddressSize(rAddrSize) && IsDataSize(dataSize)
      && !d.Any()
    ensures status == 0 <==>
      && handles && IsLegalSpeed(speed) && IsBitOrder(xsb)
      && IsEndian(mEndian) && IsEndian(srEndian) && IsEndian(sdEndian)
      && (hasDummyWrite == 0 || hasDummyWrite == 1)
      && IsDeviceAddressSize(dAddrSize) && IsRegisterAddressSize(rAddrSize) && IsDataSize(dataSize)
      && d.Any()
  {
    if !handles then -1
    else if !IsLegalSpeed(speed) then -2
    else if !IsBitOrder(xsb) then -3
    else if !IsEndian(mEndian) || !IsEndian(srEndian) || !IsEndian(sdEndian) then -4
    else if hasDummyWrite != 0 && hasDummyWrite != 1 then -5
    else if !IsDeviceAddressSize(dAddrSize) then -6
    else if !IsRegisterAddressSize(rAddrSize) then -7
    else if !IsDataSize(dataSize) then -8
    else if !d.Any() then -9
    else 0
  }

  /**
   * A failing check is never hidden by a later one: when check k fails, the
   * status is the code of check k or of an earlier failing check.
   */
  lemma InitStatusOrdered(handles: bool, speed: int, xsb: int, mEndian: int, srEndian: int, sdEndian: int,
                          hasDummyWrite: int, dAddrSize: int, rAddrSize: int, dataSize: int, d: Delays)
    ensures var status := InitStatus(handles, speed, xsb, mEndian, srEndian, sdEndian, hasDummyWrite, dAddrSize, rAddrSize, dataSize, d);
      && (!handles ==> status == -1)
      && (!IsLegalSpeed(speed) ==> -2 <= status <= -1)
      && (!IsBitOrder(xsb) ==> -3 <= status <= -1)
      && (!(IsEndian(mEndian) && IsEndian(srEndian) && IsEndian(sdEndian)) ==> -4 <= status <= -1)
      && (!(hasDummyWrite == 0 || hasDummyWrite == 1) ==> -5 <= status <= -1)
      && (!IsDeviceAddressSize(dAddrSize) ==> -6 <= status <= -1)
      && (!IsRegisterAddressSize(rAddrSize) ==> -7 <= status <= -1)
      && (!IsDataSize(dataSize) ==> -8 <= status <= -1)
      && (!d.Any() ==> -9 <= status <= -1)
  {
  }

  /** Masking an address is idempotent, and keeps it exactly when it fits the mask. */
  lemma MaskKeepsAddress(dAddr: bv16, size: int)
    ensures (dAddr & DeviceAddressMask(size)) & DeviceAddressMask(size) == dAddr & DeviceAddressMask(size)
    ensures dAddr & DeviceAddressMask(size) == dAddr <==> dAddr <= DeviceAddressMask(size)
  {
    if size == DEVICE_ADDRESS_SIZE_7 {
      assert DeviceAddressMask(size) == 0x7F;
    } else {
      assert DeviceAddressMask(size) == 0x3FF;
    }
  }

  /** The configuration stored by a successful `soft_i2c_init_ex`. */
  function ConfigOf(speed: int, xsb: int, mEndian: int, srEndian: int, sdEndian: int, hasDummyWrite: int,
                    dAddr: bv16, dAddrSize: int, rAddrSize: int, dataSize: int): (c: Config)
    requires IsLegalSpeed(speed) && IsBitOrder(xsb) && IsEndian(mEndian) && IsEndian(srEndian) && IsEndian(sdEndian)
    requires hasDummyWrite == 0 || hasDummyWrite == 1
    requires IsDeviceAddressSize(dAddrSize) && IsRegisterAddressSize(rAddrSize) && IsDataSize(dataSize)
    ensures c.Valid()
    ensures c.speed == speed && c.dAddrSize == dAddrSize && c.rAddrSize == rAddrSize && c.dataSize == dataSize
    ensures c.order == BitOrderOf(xsb) && c.hasDummyWrite == (hasDummyWrite == 1)
    ensures c.mEndian == EndianOf(mEndian) && c.srEndian == EndianOf(srEndian) && c.sdEndian == EndianOf(sdEndian)
    ensures c.dAddr == dAddr & DeviceAddressMask(dAddrSize)
    ensures c.dAddr == dAddr <==> dAddr <= DeviceAddressMask(dAddrSize)
  {
    MaskKeepsAddress(dAddr, dAddrSize);
    Config(speed % SPEED_FIELD_LIMIT, BitOrderOf(xsb), EndianOf(mEndian), EndianOf(srEndian), EndianOf(sdEndian),
           hasDummyWrite == 1, dAddr & DeviceAddressMask(dAddrSize), dAddrSize, rAddrSize, dataSize)
  }

  /** `1000000000U / speed`: the clock period in nanoseconds. */
  function PeriodNs(speed: nat): nat
    requires speed > 0
  {
    1000000000 / speed
  }

  /** The routine whose unit suits a period: ns below 1000, us below 1000000, else ms. */
  function Preferred(period: nat): Granularity
  {
    if period < 1000 then Ns else if period < 1000000 then Us else Ms
  }

  /** The routine `soft_i2c_init_ex` installs: the preferred one if supplied, else ns, us, ms in turn. */
  function Chosen(period: nat, d: Delays): (g: Granularity)
    requires d.Any()
    ensures d.Has(g)
    ensures d.Has(Preferred(period)) ==> g == Preferred(period)
    ensures !d.Has(Preferred(period)) ==> (d.ns ==> g == Ns) && (!d.ns && d.us ==> g == Us)
  {
    if d.Has(Preferred(period)) then Preferred(period)
    else if d.ns then Ns else if d.us then Us else Ms
  }

  /** The argument passed to the installed routine: the period truncated to its unit. */
  function Ticks(period: nat, d: Delays): (x: nat)
    requires d.Any()
    ensures x * Unit(Chosen(period, d)) <= period < (x + 1) * Unit(Chosen(period, d))
  {
    period / Unit(Chosen(period, d))
  }

  lemma PeriodBounds(speed: nat)
    requires IsLegalSpeed(speed)
    ensures 2500 <= PeriodNs(speed) <= 10000000
    ensures PeriodNs(speed) < 1000000 <==> speed > 1000
  {
    var p := PeriodNs(speed);
    assert p * speed <= 1000000000 < (p + 1) * speed;
    if speed > 1000 {
      assert p * 1000 < p * speed;
    } else {
      assert 1000000 * speed <= 1000000000;
    }
  }

  /**
   * Every legal speed has a period of at least 2500 ns: nanosecond delays are
   * never preferred; microseconds are preferred above 1000 Hz and
   * milliseconds at or below it.
   */
  lemma LegalSpeedPreference(speed: nat)
    requires IsLegalSpeed(speed)
    ensures Preferred(PeriodNs(speed)) != Ns
    ensures Preferred(PeriodNs(speed)) == Us <==> speed > 1000
  {
    PeriodBounds(speed);
  }

  /**
   * With only the millisecond routine supplied, every legal speed above
   * 1000 Hz gets a delay argument of 0: the period is below one millisecond.
   */
  lemma MillisecondsOnlyTruncates(speed: nat)
    requires IsLegalSpeed(speed) && speed > 1000
    ensures Ticks(PeriodNs(speed), Delays(false, false, true)) == 0
  {
    PeriodBounds(speed);
  }

  /**
   * With the fixed settings of `soft_i2c_init`, only the handles, the speed
   * and the delay routines can make initialisation fail.
   */
  lemma InitDefaultsFailures(handles: bool, speed: int, d: Delays)
    ensures var status := InitStatus(handles, speed, MSB, LITTLE_ENDIAN, LITTLE_ENDIAN, LITTLE_ENDIAN, 1,
                                     DEVICE_ADDRESS_SIZE_7, 8, 8, d);
      && (status == 0 || status == -1 || status == -2 || status == -9)
      && (status == -9 <==> handles && IsLegalSpeed(speed) && !d.Any())
  {
  }
}
