/**
 * Frame assembly of src/soft_i2c.c: the device-address byte(s) for 7- and
 * 10-bit addressing (section 3.1.11 of NXP UM10204 for the 10-bit form) and
 * the register-address bytes in little- or big-endian order.
 */
module Frames {
  import opened SoftI2cHeader

  /** `bits / 8 + (bits % 8 ? 1 : 0)`: the whole bytes that hold `bits` bits. */
  function ByteLen(bits: nat): (len: nat)
    ensures 8 * len >= bits
    ensures len > 0 ==> 8 * (len - 1) < bits
  {
    bits / 8 + (if bits % 8 != 0 then 1 else 0)
  }

  /** Legal register-address and data widths take one to four bytes. */
  lemma LegalSizeByteLen(size: int)
    requires IsRegisterAddressSize(size) || IsDataSize(size)
    ensures 1 <= ByteLen(size) <= 4
  {
  }

  /** The implicit conversion of an argument to `uint8_t`. */
  function Low8(v: bv16): bv8
  {
    (v & 0xFF) as bv8
  }

  /** `(d_addr << 1) | dir`, passed as a byte. */
  function Address7(dAddr: bv16, dir: bv8): bv8
  {
    Low8((dAddr << 1) | dir as bv16)
  }

  /** `0xF0 | ((d_addr >> 8) << 1) | dir`, passed as a byte. */
  function Address10High(dAddr: bv16, dir: bv8): bv8
  {
    Low8(0xF0 | ((dAddr >> 8) << 1) | dir as bv16)
  }

  /** `d_addr & 0xFF`. */
  function Address10Low(dAddr: bv16): bv8
  {
    Low8(dAddr & 0xFF)
  }

  /** The device-address frame; any width other than 7 is sent as 10-bit. */
  function AddressFrame(c: Config, dir: bv8): (frame: seq<bv8>)
    ensures |frame| == if c.dAddrSize == DEVICE_ADDRESS_SIZE_7 then 1 else 2
  {
    if c.dAddrSize == DEVICE_ADDRESS_SIZE_7 then [Address7(c.dAddr, dir)]
    else [Address10High(c.dAddr, dir), Address10Low(c.dAddr)]
  }

  /** How an addressed slave reads the address and direction back out of the frame. */
  function DecodeAddress(size: nat, frame: seq<bv8>): (bv16, bv8)
    requires |frame| == if size == DEVICE_ADDRESS_SIZE_7 then 1 else 2
  {
    if size == DEVICE_ADDRESS_SIZE_7 then ((frame[0] >> 1) as bv16, frame[0] & 1)
    else (((((frame[0] >> 1) & 3) as bv16) << 8) | frame[1] as bv16, frame[0] & 1)
  }

  /** The 7-bit frame needs no truncation: it is exactly `(d_addr << 1) | dir`. */
  lemma Address7Exact(dAddr: bv16, dir: bv8)
    requires dAddr <= 0x7F && dir <= 1
    ensures Address7(dAddr, dir) as bv16 == (dAddr << 1) | dir as bv16
    ensures Address7(dAddr, dir) >> 1 == dAddr as bv8 && Address7(dAddr, dir) & 1 == dir
  {
  }

  /**
   * The first 10-bit byte is 11110xxd: in 0xF0..0xF7, bits 2-1 are the two
   * high address bits and bit 0 the direction; the second byte is the low
   * eight address bits.
   */
  lemma Address10Layout(dAddr: bv16, dir: bv8)
    requires dAddr <= 0x3FF && dir <= 1
    ensures 0xF0 <= Address10High(dAddr, dir) <= 0xF7
    ensures Address10High(dAddr, dir) & 0xF8 == 0xF0
    ensures Address10High(dAddr, dir) & 1 == dir
    ensures (Address10High(dAddr, dir) >> 1) & 3 == (dAddr >> 8) as bv8
    ensures Address10Low(dAddr) as bv16 == dAddr & 0xFF
  {
  }

  /** Every address frame of a valid configuration decodes to its address and direction. */
  lemma AddressFrameRoundTrip(c: Config, dir: bv8)
    requires c.Valid() && dir <= 1
    ensures DecodeAddress(c.dAddrSize, AddressFrame(c, dir)) == (c.dAddr, dir)
  {
    if c.dAddrSize == DEVICE_ADDRESS_SIZE_7 {
      Address7Exact(c.dAddr, dir);
    } else {
      Address10Layout(c.dAddr, dir);
    }
  }

  /** `(address >> (k * 8)) & 0xFF`, written out for each of the four shifts. */
  function RegByte(address: bv32, k: nat): bv8
    requires k < 4
  {
    if k == 0 then (address & 0xFF) as bv8
    else if k == 1 then ((address >> 8) & 0xFF) as bv8
    else if k == 2 then ((address >> 16) & 0xFF) as bv8
    else ((address >> 24) & 0xFF) as bv8
  }

  /** `b << (k * 8)` on a 32-bit word. */
  function ByteAt(b: bv8, k: nat): bv32
    requires k < 4
  {
    if k == 0 then b as bv32
    else if k == 1 then (b as bv32) << 8
    else if k == 2 then (b as bv32) << 16
    else (b as bv32) << 24
  }

  /** The register-address bytes in the order they go on the wire. */
  function RegisterFrame(c: Config, address: bv32): (frame: seq<bv8>)
    requires 1 <= ByteLen(c.rAddrSize) <= 4
    ensures |frame| == ByteLen(c.rAddrSize)
  {
    var len := ByteLen(c.rAddrSize);
    seq(len, i requires 0 <= i < len =>
      if c.srEndian == Little then RegByte(address, i) else RegByte(address, len - 1 - i))
  }

  /** The value of bytes read least significant first. */
  function LeValue(bytes: seq<bv8>): bv32
    requires |bytes| <= 4
  {
    if bytes == [] then 0
    else LeValue(bytes[..|bytes| - 1]) | ByteAt(bytes[|bytes| - 1], |bytes| - 1)
  }

  /** The low `len` bytes of a 32-bit word, i.e. reduction modulo 2^(8*len). */
  function LowMask(len: nat): bv32
  {
    if len == 0 then 0 else if len == 1 then 0xFF else if len == 2 then 0xFFFF
    else if len == 3 then 0xFF_FFFF else 0xFFFF_FFFF
  }

  /** The low `k` bytes of the address, least significant first. */
  function AddressBytes(address: bv32, k: nat): (bytes: seq<bv8>)
    requires k <= 4
    ensures |bytes| == k
  {
    seq(k, i requires 0 <= i < k => RegByte(address, i))
  }

  /** Adding byte k of the address to its low k bytes gives its low k + 1 bytes. */
  lemma MaskStep1(address: bv32)
    ensures (address & LowMask(1)) | ByteAt(RegByte(address, 1), 1) == address & LowMask(2)
  {
  }

  lemma MaskStep2(address: bv32)
    ensures (address & LowMask(2)) | ByteAt(RegByte(address, 2), 2) == address & LowMask(3)
  {
  }

  lemma MaskStep3(address: bv32)
    ensures (address & LowMask(3)) | ByteAt(RegByte(address, 3), 3) == address & LowMask(4)
  {
  }

  /** Recombining the low k + 1 bytes extends the low k bytes by byte k. */
  lemma LeAddress1(address: bv32, k: nat)
    requires k == 1
    ensures LeValue(AddressBytes(address, k)) == address & LowMask(k)
  {
    assert AddressBytes(address, 1)[..0] == [];
  }

  lemma LeAddress2(address: bv32, k: nat)
    requires k == 2
    ensures LeValue(AddressBytes(address, k)) == address & LowMask(k)
  {
    assert AddressBytes(address, 2)[..1] == AddressBytes(address, 1);
    LeAddress1(address, 1);
    MaskStep1(address);
  }

  lemma LeAddress3(address: bv32, k: nat)
    requires k == 3
    ensures LeValue(AddressBytes(address, k)) == address & LowMask(k)
  {
    assert AddressBytes(address, 3)[..2] == AddressBytes(address, 2);
    LeAddress2(address, 2);
    MaskStep2(address);
  }

  lemma LeAddress4(address: bv32, k: nat)
    requires k == 4
    ensures LeValue(AddressBytes(address, k)) == address & LowMask(k)
  {
    assert AddressBytes(address, 4)[..3] == AddressBytes(address, 3);
    LeAddress3(address, 3);
    MaskStep3(address);
  }

  /** The low k bytes recombine to the address modulo 2^(8*k). */
  lemma LeValueOfAddress(address: bv32, k: nat)
    requires 1 <= k <= 4
    ensures LeValue(AddressBytes(address, k)) == address & LowMask(k)
  {
    if k == 1 { LeAddress1(address, k); }
    else if k == 2 { LeAddress2(address, k); }
    else if k == 3 { LeAddress3(address, k); }
    else { LeAddress4(address, k); }
  }

  /**
   * Register-address bytes: little-endian sends byte i of the address at
   * position i, big-endian sends exactly the reverse, and the bytes
   * recombine to the address modulo 2^(8*len).
   */
  lemma RegisterFrameOrder(c: Config, address: bv32)
    requires 1 <= ByteLen(c.rAddrSize) <= 4
    ensures var len := ByteLen(c.rAddrSize); var frame := RegisterFrame(c, address);
      && (c.srEndian == Little ==> LeValue(frame) == address & LowMask(len))
      && (c.srEndian == Big ==>
            forall i :: 0 <= i < len ==> frame[i] == RegisterFrame(c.(srEndian := Little), address)[len - 1 - i])
  {
    var len := ByteLen(c.rAddrSize);
    if c.srEndian == Little {
      assert RegisterFrame(c, address) == AddressBytes(address, len);
      LeValueOfAddress(address, len);
    }
  }
}
