/**
 * Constants, legality checks and the configuration record of the soft I2C
 * master (src/soft_i2c.h). The packed bit-field word and its raw-integer alias
 * become a plain datatype with named, enumerated fields.
 */
module SoftI2cHeader {

  /** Acknowledge levels: the receiver pulls SDA low (0) to acknowledge. */
  const ACK: bv8 := 0
  const NACK: bv8 := 1

  /** The read/write direction bit appended to a device address. */
  const WRITE: bv8 := 0
  const READ: bv8 := 1

  const SPEED_MIN: int := 100
  const SPEED_MAX: int := 400000

  const MSB: int := 0
  const LSB: int := 1

  const LITTLE_ENDIAN: int := 0
  const BIG_ENDIAN: int := 1

  const DEVICE_ADDRESS_SIZE_7: int := 7
  const DEVICE_ADDRESS_SIZE_10: int := 10

  const REGISTER_ADDRESS_SIZE_MIN: int := 1
  const REGISTER_ADDRESS_SIZE_MAX: int := 32

  const DATA_SIZE_MIN: int := 1
  const DATA_SIZE_MAX: int := 32

  /** Width of the `speed` bit-field of the packed mode word. */
  const SPEED_FIELD_LIMIT: int := 0x8_0000

  /** A legal speed is also a non-zero divisor that fits the 19-bit field. */
  predicate IsLegalSpeed(speed: int)
    ensures IsLegalSpeed(speed) ==> 0 < speed < SPEED_FIELD_LIMIT
  {
    SPEED_MIN <= speed <= SPEED_MAX
  }

  /** A legal bit order fits its 1-bit field. */
  predicate IsBitOrder(xsb: int)
    ensures IsBitOrder(xsb) ==> 0 <= xsb < 2
  {
    xsb == MSB || xsb == LSB
  }

  /** A legal endianness fits its 1-bit field. */
  predicate IsEndian(endian: int)
    ensures IsEndian(endian) ==> 0 <= endian < 2
  {
    endian == LITTLE_ENDIAN || endian == BIG_ENDIAN
  }

  predicate IsDeviceAddressSize(size: int)
  {
    size == DEVICE_ADDRESS_SIZE_7 || size == DEVICE_ADDRESS_SIZE_10
  }

  predicate IsRegisterAddressSize(size: int)
  {
    REGISTER_ADDRESS_SIZE_MIN <= size <= REGISTER_ADDRESS_SIZE_MAX
  }

  predicate IsDataSize(size: int)
  {
    DATA_SIZE_MIN <= size <= DATA_SIZE_MAX
  }

  /** Bit order on the wire: most significant bit first is standard I2C. */
  datatype BitOrder = MsbFirst | LsbFirst

  datatype Endian = Little | Big

  /** The enumerated value a legal bit-order code stands for, and back. */
  function BitOrderOf(xsb: int): (o: BitOrder)
    requires IsBitOrder(xsb)
    ensures o == MsbFirst <==> xsb == MSB
  {
    if xsb == MSB then MsbFirst else LsbFirst
  }

  function EndianOf(endian: int): (e: Endian)
    requires IsEndian(endian)
    ensures e == Little <==> endian == LITTLE_ENDIAN
  {
    if endian == LITTLE_ENDIAN then Little else Big
  }

  /** Mask that keeps a device address within its declared width. */
  function DeviceAddressMask(size: int): bv16
  {
    if size == DEVICE_ADDRESS_SIZE_7 then 0x7F else 0x3FF
  }

  /**
   * The configuration fields of `struct soft_i2c`: the mode word
   * (speed, bit order, three endiannesses, dummy-write flag), the device
   * address and its width, and the register-address and data widths in bits.
   */
  datatype Config = Config(
    speed: nat,
    order: BitOrder,
    mEndian: Endian,
    srEndian: Endian,
    sdEndian: Endian,
    hasDummyWrite: bool,
    dAddr: bv16,
    dAddrSize: nat,
    rAddrSize: nat,
    dataSize: nat)
  {
    /** What a successful initialisation guarantees about the fields. */
    predicate Valid()
    {
      && IsLegalSpeed(speed)
      && IsDeviceAddressSize(dAddrSize)
      && dAddr & DeviceAddressMask(dAddrSize) == dAddr
      && IsRegisterAddressSize(rAddrSize)
      && IsDataSize(dataSize)
    }
  }

  /** The enumerated fields keep the codes they were built from. */
  lemma CodesRoundTrip(xsb: int, endian: int)
    requires IsBitOrder(xsb) && IsEndian(endian)
    ensures (if BitOrderOf(xsb) == MsbFirst then MSB else LSB) == xsb
    ensures (if EndianOf(endian) == Little then LITTLE_ENDIAN else BIG_ENDIAN) == endian
  {
  }
}
