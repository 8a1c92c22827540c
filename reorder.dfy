/**
 * Where the bytes of one data element sit in memory and in which order they
 * go on the wire (src/soft_i2c.c, the data loops of `soft_i2c_write` and
 * `soft_i2c_read`). An element of `data_len` bytes occupies a slot of 1, 2
 * or 4 bytes in the caller's buffer; the master's endianness says where each
 * byte of the value sits in the slot, the slave's endianness which byte of
 * the value is sent first.
 */
module Reorder {
  import opened SoftI2cHeader

  /** Bytes an element occupies in the buffer: `data_len == 1 ? 1 : data_len == 2 ? 2 : 4`. */
  function Stride(len: nat): (w: nat)
    ensures w == 1 || w == 2 || w == 4
    ensures 1 <= len <= 4 ==> len <= w
  {
    if len == 1 then 1 else if len == 2 then 2 else 4
  }

  /** Significance (0 = least significant byte) of the i-th byte the slave sees. */
  function WireSignificance(sd: Endian, len: nat, i: nat): (sig: nat)
    requires i < len
    ensures sig < len
  {
    if sd == Little then i else len - 1 - i
  }

  /**
   * Slot position of the byte of significance `sig` of a value stored in
   * `Stride(len)` bytes: a little-endian master keeps it at `sig`, a
   * big-endian master right-aligns the value in its slot.
   */
  function SlotPosition(m: Endian, len: nat, sig: nat): (pos: nat)
    requires sig < len <= 4
    ensures pos < Stride(len)
  {
    if m == Little then sig else Stride(len) - 1 - sig
  }

  /**
   * The slot position `soft_i2c_write` sends as the i-th byte of an element:
   * the byte of the value whose significance the slave expects there.
   */
  function WriteIndex(m: Endian, sd: Endian, len: nat, i: nat): (pos: int)
    requires 1 <= len <= 4 && i < len
    ensures pos == SlotPosition(m, len, WireSignificance(sd, len, i))
    ensures 0 <= pos < Stride(len)
  {
    if m == Little then
      if sd == Little then i else len - 1 - i
    else
      if sd == Little then len - (if len == 3 then 0 else 1) - i else i + (if len == 3 then 1 else 0)
  }

  /** The slot position `soft_i2c_read` stores the i-th received byte at, as the source writes it. */
  function ReadIndexAsWritten(m: Endian, sd: Endian, len: nat, i: nat): (pos: int)
    requires 1 <= len <= 4 && i < len
    ensures 0 <= pos < Stride(len)
  {
    if sd == Little then
      if m == Little then i else len - (if len == 3 then 0 else 1) - i
    else
      if m == Little then len - (if len == 3 then 0 else 1) - i else (if len == 3 then 1 else 0) + i
  }

  /**
   * The read-side index with the slave-big-endian, master-little-endian case
   * corrected to `data_len - 1 - i`: every received byte goes back to the
   * slot position the write side sends it from.
   */
  function ReadIndex(m: Endian, sd: Endian, len: nat, i: nat): (pos: int)
    requires 1 <= len <= 4 && i < len
    ensures pos == WriteIndex(m, sd, len, i)
  {
    if sd == Little then
      if m == Little then i else len - (if len == 3 then 0 else 1) - i
    else
      if m == Little then len - 1 - i else (if len == 3 then 1 else 0) + i
  }

  /** Distinct wire bytes of an element come from distinct slot positions. */
  lemma WriteIndexInjective(m: Endian, sd: Endian, len: nat, i: nat, j: nat)
    requires 1 <= len <= 4 && i < len && j < len
    requires WriteIndex(m, sd, len, i) == WriteIndex(m, sd, len, j)
    ensures i == j
  {
  }

  /**
   * The positions an element's bytes occupy: the low `len` bytes of the slot
   * for a little-endian master, the high ones for a big-endian master; every
   * one of them is sent.
   */
  lemma WriteIndexCoversValue(m: Endian, sd: Endian, len: nat, pos: nat)
    requires 1 <= len <= 4 && pos < Stride(len)
    ensures (exists i :: 0 <= i < len && WriteIndex(m, sd, len, i) == pos) <==>
      (if m == Little then pos < len else Stride(len) - len <= pos)
  {
    if m == Little && pos < len {
      var i := WireSignificance(sd, len, pos);
      assert WireSignificance(sd, len, i) == pos;
      assert WriteIndex(m, sd, len, i) == pos;
    } else if m == Big && Stride(len) - len <= pos {
      var i := WireSignificance(sd, len, Stride(len) - 1 - pos);
      assert WireSignificance(sd, len, i) == Stride(len) - 1 - pos;
      assert WriteIndex(m, sd, len, i) == pos;
    }
  }

  /** The source's read index agrees with the write side in every case but one. */
  lemma ReadIndexAsWrittenAgrees(m: Endian, sd: Endian, len: nat, i: nat)
    requires 1 <= len <= 4 && i < len
    ensures ReadIndexAsWritten(m, sd, len, i) == WriteIndex(m, sd, len, i) <==>
      !(m == Little && sd == Big && len == 3)
  {
  }

  /**
   * For a 3-byte element with a little-endian master and a big-endian slave
   * the source stores every received byte one position too high: the most
   * significant byte lands in the padding byte 3, and byte 0 is never written.
   */
  lemma ReadIndexAsWrittenShifts(i: nat)
    requires i < 3
    ensures ReadIndexAsWritten(Little, Big, 3, i) == WriteIndex(Little, Big, 3, i) + 1
    ensures ReadIndexAsWritten(Little, Big, 3, 0) == 3
    ensures forall j :: 0 <= j < 3 ==> ReadIndexAsWritten(Little, Big, 3, j) != 0
  {
  }
}
