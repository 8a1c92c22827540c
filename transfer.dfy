/**
 * Whole transactions of src/soft_i2c.c as functions of the configuration, the
 * caller's buffer and the levels the slave presents at SDA samples:
 * the bytes `soft_i2c_write` offers, the lines it drives, how many elements it
 * reports; the lines `soft_i2c_read` drives, what it stores and how many
 * elements it reports. The engine's methods are proved against these.
 */
module Transfer {
  import opened SoftI2cHeader
  import opened Bus
  import opened Bits
  import opened Frames
  import opened Reorder

  /** `address_len`: bytes of the register address. */
  function AddressLen(c: Config): (len: nat)
    ensures c.Valid() ==> 1 <= len <= 4
  {
    ByteLen(c.rAddrSize)
  }

  /** `data_len`: bytes of one data element. */
  function DataLen(c: Config): (len: nat)
    ensures c.Valid() ==> 1 <= len <= 4
  {
    ByteLen(c.dataSize)
  }

  // ---------------------------------------------------------------- arithmetic

  lemma FlatIndex(n: nat, i: nat, len: nat)
    requires 1 <= len <= 4 && i < len
    ensures (n * len + i) / len == n && (n * len + i) % len == i
  {
    if len == 1 {} else if len == 2 {} else if len == 3 {} else {}
  }

  lemma DivBounds(a: nat, len: nat)
    requires 1 <= len <= 4
    ensures (a / len) * len <= a < (a / len + 1) * len
    ensures a == (a / len) * len + a % len
  {
    if len == 1 {} else if len == 2 {} else if len == 3 {} else {}
  }

  /** Byte i of element n, elements being `len` bytes, lies in element n. */
  lemma QuotientOf(n: nat, i: nat, len: nat)
    requires 1 <= len <= 4 && i < len
    ensures (n * len + i) / len == n
  {
    if len == 1 {} else if len == 2 {} else if len == 3 {} else {}
  }

  lemma MulMono(a: nat, b: nat, s: nat)
    requires a <= b && s <= 4
    ensures a * s <= b * s
  {
    if s == 0 {} else if s == 1 {} else if s == 2 {} else if s == 3 {} else {}
  }

  /**
   * The reception of byte i of element n is the last of the whole transfer
   * exactly when it is byte `data_len - 1` of element `size - 1`.
   */
  lemma LastByteOfTransfer(n: nat, i: nat, len: nat, size: nat)
    requires 1 <= len <= 4 && i < len && n < size
    ensures (n == size - 1 && i == len - 1) <==> n * len + i == size * len - 1
  {
    if n < size - 1 {
      MulMono(n + 1, size - 1, len);
    }
  }

  // ---------------------------------------------------------------- buffer layout

  /** Buffer index of the j-th data byte on the wire. */
  function Slot(c: Config, offset: nat, j: nat): (k: nat)
    requires c.Valid()
    ensures var len := DataLen(c);
      (offset + j / len) * Stride(len) <= k < (offset + j / len + 1) * Stride(len)
  {
    var len := DataLen(c);
    (offset + j / len) * Stride(len) + WriteIndex(c.mEndian, c.sdEndian, len, j % len)
  }

  /** Byte i of element n sits at slot position `WriteIndex(i)` of the element's slot. */
  lemma SlotOfElement(c: Config, offset: nat, n: nat, i: nat)
    requires c.Valid() && i < DataLen(c)
    ensures Slot(c, offset, n * DataLen(c) + i) ==
      (offset + n) * Stride(DataLen(c)) + WriteIndex(c.mEndian, c.sdEndian, DataLen(c), i)
  {
    FlatIndex(n, i, DataLen(c));
  }

  /** The data bytes of `size` elements stay inside the buffer region they name. */
  lemma SlotBound(c: Config, offset: nat, size: nat, j: nat)
    requires c.Valid() && j < size * DataLen(c)
    ensures Slot(c, offset, j) < (offset + size) * Stride(DataLen(c))
  {
    var len := DataLen(c);
    DivBounds(j, len);
    if j / len >= size {
      MulMono(size, j / len, len);
    }
    MulMono(offset + j / len + 1, offset + size, Stride(len));
  }

  /** No two data bytes share a buffer index. */
  lemma SlotInjective(c: Config, offset: nat, s: nat, t: nat)
    requires c.Valid() && Slot(c, offset, s) == Slot(c, offset, t)
    ensures s == t
  {
    var len := DataLen(c);
    DivBounds(s, len);
    DivBounds(t, len);
    if s / len < t / len {
      MulMono(offset + s / len + 1, offset + t / len, Stride(len));
    } else if t / len < s / len {
      MulMono(offset + t / len + 1, offset + s / len, Stride(len));
    } else {
      WriteIndexInjective(c.mEndian, c.sdEndian, len, s % len, t % len);
    }
  }

  /** The data bytes of `size` elements in wire order. */
  function DataStream(c: Config, buf: seq<bv8>, offset: nat, size: nat): (w: seq<bv8>)
    requires c.Valid() && (offset + size) * Stride(DataLen(c)) <= |buf|
    ensures |w| == size * DataLen(c)
  {
    seq(size * DataLen(c), j requires 0 <= j < size * DataLen(c) =>
      SlotBound(c, offset, size, j); buf[Slot(c, offset, j)])
  }

  // ---------------------------------------------------------------- acknowledges

  /** The first byte from index j on whose acknowledge sample is not ACK, or n. */
  function FirstNackFrom(q: seq<bv8>, j: nat, n: nat): (k: nat)
    requires j <= n
    ensures j <= k <= n
    ensures forall t :: j <= t < k ==> SampleAt(q, t) == ACK
    ensures k < n ==> SampleAt(q, k) != ACK
    decreases n - j
  {
    if j == n then n else if SampleAt(q, j) != ACK then j else FirstNackFrom(q, j + 1, n)
  }

  /** The first of n bytes that is not acknowledged, or n when all are. */
  function FirstNack(q: seq<bv8>, n: nat): (k: nat)
    ensures k <= n
    ensures forall t :: 0 <= t < k ==> SampleAt(q, t) == ACK
    ensures k < n ==> SampleAt(q, k) != ACK
  {
    FirstNackFrom(q, 0, n)
  }

  /** How many of n bytes go out: up to and including the first one not acknowledged. */
  function SentCount(q: seq<bv8>, n: nat): (r: nat)
    ensures r <= n && (n > 0 ==> r > 0)
    ensures forall t :: 0 <= t < r - 1 ==> SampleAt(q, t) == ACK
    ensures r < n ==> SampleAt(q, r - 1) != ACK
    ensures r == n ==> forall t :: 0 <= t < n - 1 ==> SampleAt(q, t) == ACK
  {
    var k := FirstNack(q, n);
    if k < n then k + 1 else n
  }

  /** The acknowledge samples pin down the first unacknowledged byte. */
  lemma FirstNackIs(q: seq<bv8>, n: nat, k: nat)
    requires k <= n
    requires forall t :: 0 <= t < k ==> SampleAt(q, t) == ACK
    requires k < n ==> SampleAt(q, k) != ACK
    ensures FirstNack(q, n) == k
  {
  }

  /** Every one of the first n bytes was acknowledged, stated byte by byte. */
  predicate AckedUpTo(q: seq<bv8>, n: nat)
  {
    n == 0 || (AckedUpTo(q, n - 1) && SampleAt(q, n - 1) == ACK)
  }

  lemma {:induction false} AckedUpToMeans(q: seq<bv8>, n: nat)
    ensures AckedUpTo(q, n) <==> forall t :: 0 <= t < n ==> SampleAt(q, t) == ACK
  {
    if n > 0 {
      AckedUpToMeans(q, n - 1);
    }
  }

  /** A transfer stopped by a NACK on byte s - 1 sent exactly s bytes. */
  lemma SentCountAtNack(q: seq<bv8>, n: nat, s: nat)
    requires 0 < s <= n && AckedUpTo(q, s - 1) && SampleAt(q, s - 1) != ACK
    ensures FirstNack(q, n) == s - 1 && SentCount(q, n) == s
  {
    AckedUpToMeans(q, s - 1);
    FirstNackIs(q, n, s - 1);
  }

  /** A transfer whose every byte was acknowledged sent all of them. */
  lemma SentCountAllAcked(q: seq<bv8>, n: nat)
    requires AckedUpTo(q, n)
    ensures FirstNack(q, n) == n && SentCount(q, n) == n
  {
    AckedUpToMeans(q, n);
    FirstNackIs(q, n, n);
  }

  // ---------------------------------------------------------------- write

  /** The lines while `write_byte` sends the first n bytes in turn, byte t acknowledged by sample t of q. */
  function WriteBytesTrace(order: BitOrder, bytes: seq<bv8>, q: seq<bv8>, n: nat): seq<Event>
    requires n <= |bytes|
  {
    if n == 0 then []
    else WriteBytesTrace(order, bytes, q, n - 1) + WriteByteTrace(order, bytes[n - 1], SampleAt(q, n - 1))
  }

  /** Device-address and register-address bytes in the write direction. */
  function WriteHeader(c: Config, address: bv32): (h: seq<bv8>)
    requires c.Valid()
    ensures |h| == |AddressFrame(c, WRITE)| + AddressLen(c)
  {
    AddressFrame(c, WRITE) + RegisterFrame(c, address)
  }

  /** Every byte `soft_i2c_write` offers; without a buffer it ends after the register address. */
  function WriteStream(c: Config, address: bv32, hasData: bool, buf: seq<bv8>, offset: nat, size: nat): (s: seq<bv8>)
    requires c.Valid()
    requires hasData ==> (offset + size) * Stride(DataLen(c)) <= |buf|
    ensures |s| == |WriteHeader(c, address)| + (if hasData then size * DataLen(c) else 0)
  {
    WriteHeader(c, address) + (if hasData then DataStream(c, buf, offset, size) else [])
  }

  /** Where the device-address and register-address bytes sit at the head of a stream. */
  lemma HeaderLayout(c: Config, address: bv32, rest: seq<bv8>)
    requires c.Valid()
    ensures var s := WriteHeader(c, address) + rest; var f := AddressFrame(c, WRITE);
      && (forall k :: 0 <= k < |f| ==> s[k] == f[k])
      && (forall k :: 0 <= k < AddressLen(c) ==> s[|f| + k] == RegisterFrame(c, address)[k])
  {
  }

  /** Byte i of element n: its place in the data stream and in the buffer. */
  lemma DataByte(c: Config, buf: seq<bv8>, offset: nat, size: nat, n: nat, i: nat)
    requires c.Valid() && (offset + size) * Stride(DataLen(c)) <= |buf| && n < size && i < DataLen(c)
    ensures n * DataLen(c) + i < size * DataLen(c)
    ensures (offset + n) * Stride(DataLen(c)) + WriteIndex(c.mEndian, c.sdEndian, DataLen(c), i) < |buf|
    ensures DataStream(c, buf, offset, size)[n * DataLen(c) + i] ==
      buf[(offset + n) * Stride(DataLen(c)) + WriteIndex(c.mEndian, c.sdEndian, DataLen(c), i)]
  {
    MulMono(n + 1, size, DataLen(c));
    SlotOfElement(c, offset, n, i);
    SlotBound(c, offset, size, n * DataLen(c) + i);
  }

  /** The lines of a write transaction: START, the bytes up to the first NACK, STOP. */
  function WriteTrace(c: Config, stream: seq<bv8>, q: seq<bv8>): seq<Event>
  {
    StartTrace() + WriteBytesTrace(c.order, stream, q, SentCount(q, |stream|)) + StopTrace()
  }

  /**
   * The bytes of element n, taken from the buffer, follow each other in a
   * stream that carries the data stream from position h on.
   */
  lemma ElementInStream(c: Config, buf: seq<bv8>, offset: nat, size: nat, stream: seq<bv8>, h: nat, n: nat)
    requires c.Valid() && (offset + size) * Stride(DataLen(c)) <= |buf| && n < size
    requires h + size * DataLen(c) <= |stream|
    requires forall j :: 0 <= j < size * DataLen(c) ==> stream[h + j] == DataStream(c, buf, offset, size)[j]
    ensures (offset + n) * Stride(DataLen(c)) + Stride(DataLen(c)) <= |buf|
    ensures h + n * DataLen(c) + DataLen(c) <= |stream|
    ensures forall i :: 0 <= i < DataLen(c) ==>
      stream[h + n * DataLen(c) + i] == buf[(offset + n) * Stride(DataLen(c)) + WriteIndex(c.mEndian, c.sdEndian, DataLen(c), i)]
  {
    var len := DataLen(c);
    MulMono(n + 1, size, len);
    MulMono(offset + n + 1, offset + size, Stride(len));
    forall i | 0 <= i < len
      ensures stream[h + n * len + i] == buf[(offset + n) * Stride(len) + WriteIndex(c.mEndian, c.sdEndian, len, i)]
    {
      DataByte(c, buf, offset, size, n, i);
      assert h + n * len + i == h + (n * len + i);
    }
  }

  /**
   * `soft_i2c_write`'s result: the number of whole elements acknowledged.
   * All of the header and of the first `count` elements was acknowledged, and
   * when fewer than `size` elements count, a byte of the header or of element
   * `count` was not.
   */
  function WriteCount(c: Config, hasData: bool, size: nat, q: seq<bv8>): (count: nat)
    requires c.Valid()
    ensures count <= size
    ensures !hasData ==> count == 0
    ensures count > 0 ==>
      forall t :: 0 <= t < |AddressFrame(c, WRITE)| + AddressLen(c) + count * DataLen(c) ==> SampleAt(q, t) == ACK
    ensures hasData && count < size ==>
      exists t :: 0 <= t < |AddressFrame(c, WRITE)| + AddressLen(c) + (count + 1) * DataLen(c) && SampleAt(q, t) != ACK
  {
    var h := |AddressFrame(c, WRITE)| + AddressLen(c);
    var len := DataLen(c);
    var k := FirstNack(q, h + size * len);
    if !hasData || k < h then
      (if hasData && size > 0 then assert SampleAt(q, k) != ACK; 0 else 0)
    else
      DivBounds(k - h, len);
      var count := (k - h) / len;
      if count < size then assert SampleAt(q, k) != ACK; count else count
  }

  /** A NACK inside the header leaves no element counted. */
  lemma WriteCountAtHeaderNack(c: Config, hasData: bool, size: nat, q: seq<bv8>, k: nat)
    requires c.Valid() && k < |AddressFrame(c, WRITE)| + AddressLen(c)
    requires AckedUpTo(q, k) && SampleAt(q, k) != ACK
    ensures WriteCount(c, hasData, size, q) == 0
  {
    AckedUpToMeans(q, k);
  }

  /** A write refused within its device or register address sends up to the refused byte and counts nothing. */
  lemma HeaderNackOutcome(c: Config, hasData: bool, size: nat, q: seq<bv8>, total: nat, sent: nat)
    requires c.Valid() && 0 < sent <= |AddressFrame(c, WRITE)| + AddressLen(c) && sent <= total
    requires AckedUpTo(q, sent - 1) && SampleAt(q, sent - 1) != ACK
    ensures SentCount(q, total) == sent && WriteCount(c, hasData, size, q) == 0
  {
    SentCountAtNack(q, total, sent);
    WriteCountAtHeaderNack(c, hasData, size, q, sent - 1);
  }

  /**
   * How the data loop of a write ends: all elements acknowledged, or the
   * elements before the one holding the refused byte counted.
   */
  lemma ElementsOutcome(c: Config, size: nat, q: seq<bv8>, h: nat, count: nat, sent: nat, acked: bool)
    requires c.Valid() && h == |AddressFrame(c, WRITE)| + AddressLen(c)
    requires acked ==> count == size && sent == h + size * DataLen(c) && AckedUpTo(q, sent)
    requires !acked ==> count < size && h + count * DataLen(c) < sent <= h + (count + 1) * DataLen(c)
    requires !acked ==> AckedUpTo(q, sent - 1) && SampleAt(q, sent - 1) != ACK
    ensures SentCount(q, h + size * DataLen(c)) == sent && WriteCount(c, true, size, q) == count
  {
    var total := h + size * DataLen(c);
    if acked {
      SentCountAllAcked(q, total);
      AckedUpToMeans(q, sent);
      WriteCountAllAcked(c, size, q);
    } else {
      MulMono(count + 1, size, DataLen(c));
      SentCountAtNack(q, total, sent);
      AckedUpToMeans(q, sent - 1);
      WriteCountAtNack(c, size, q, count, sent - 1 - h - count * DataLen(c));
    }
  }

  /** An element is counted exactly when all of its bytes and everything before them were acknowledged. */
  lemma WriteCountAtNack(c: Config, size: nat, q: seq<bv8>, n: nat, i: nat)
    requires c.Valid() && n < size && i < DataLen(c)
    requires var j := |AddressFrame(c, WRITE)| + AddressLen(c) + n * DataLen(c) + i;
      (forall t :: 0 <= t < j ==> SampleAt(q, t) == ACK) && SampleAt(q, j) != ACK
    ensures WriteCount(c, true, size, q) == n
  {
    var h := |AddressFrame(c, WRITE)| + AddressLen(c);
    var len := DataLen(c);
    var j := h + n * len + i;
    MulMono(n + 1, size, len);
    assert (n + 1) * len == n * len + len;
    FirstNackIs(q, h + size * len, j);
    QuotientOf(n, i, len);
  }

  /** When every byte is acknowledged, every element counts. */
  lemma WriteCountAllAcked(c: Config, size: nat, q: seq<bv8>)
    requires c.Valid()
    requires forall t :: 0 <= t < |AddressFrame(c, WRITE)| + AddressLen(c) + size * DataLen(c) ==> SampleAt(q, t) == ACK
    ensures WriteCount(c, true, size, q) == size
  {
    var count := WriteCount(c, true, size, q);
    if count < size {
      var h := |AddressFrame(c, WRITE)| + AddressLen(c);
      var t :| 0 <= t < h + (count + 1) * DataLen(c) && SampleAt(q, t) != ACK;
      MulMono(count + 1, size, DataLen(c));
    }
  }

  /**
   * A slave that does not acknowledge its address sees a START, the first
   * address byte and a STOP, and no element counts.
   */
  lemma NoSlaveWrite(c: Config, address: bv32, hasData: bool, buf: seq<bv8>, offset: nat, size: nat, q: seq<bv8>)
    requires c.Valid() && (hasData ==> (offset + size) * Stride(DataLen(c)) <= |buf|)
    requires SampleAt(q, 0) != ACK
    ensures var s := WriteStream(c, address, hasData, buf, offset, size);
      WriteTrace(c, s, q) == StartTrace() + WriteByteTrace(c.order, s[0], SampleAt(q, 0)) + StopTrace()
    ensures WriteCount(c, hasData, size, q) == 0
  {
    var s := WriteStream(c, address, hasData, buf, offset, size);
    FirstNackIs(q, |s|, 0);
    assert WriteBytesTrace(c.order, s, q, 1) == WriteByteTrace(c.order, s[0], SampleAt(q, 0));
  }

  // ---------------------------------------------------------------- read

  /** What `soft_i2c_read` sends in the write direction before the repeated start. */
  function DummyFrame(c: Config, address: bv32): (p: seq<bv8>)
    requires c.Valid()
    ensures |p| == if c.hasDummyWrite then |WriteHeader(c, address)| else 0
  {
    if c.hasDummyWrite then WriteHeader(c, address) else []
  }

  /** Whether the dummy write, when there is one, was acknowledged in full. */
  predicate DummyAcked(c: Config, address: bv32, q: seq<bv8>)
    requires c.Valid()
  {
    FirstNack(q, |DummyFrame(c, address)|) == |DummyFrame(c, address)|
  }

  /** Whether the slave acknowledged every byte sent before the data, so that data is read. */
  predicate Addressed(c: Config, address: bv32, q: seq<bv8>)
    requires c.Valid()
  {
    var p := |DummyFrame(c, address)|;
    DummyAcked(c, address, q) && FirstNack(Drop(q, p), |AddressFrame(c, READ)|) == |AddressFrame(c, READ)|
  }

  /** The acknowledge driven after each received byte: NACK after the last one only. */
  function AckPlan(total: nat): (acks: seq<bv8>)
    ensures |acks| == total
  {
    seq(total, j requires 0 <= j < total => if j == total - 1 then NACK else ACK)
  }

  /** The lines while `read_byte` receives n bytes, byte t from the t-th slice of q and followed by acks[t]. */
  function ReadBytesTrace(order: BitOrder, q: seq<bv8>, acks: seq<bv8>, n: nat): seq<Event>
    requires n <= |acks|
  {
    if n == 0 then []
    else ReadBytesTrace(order, q, acks, n - 1) + ReadByteTrace(Slice8(q, n - 1), acks[n - 1])
  }

  /** The m bytes `read_byte` assembles from the sample queue q. */
  function Received(order: BitOrder, q: seq<bv8>, m: nat): (rx: seq<bv8>)
    ensures |rx| == m
  {
    seq(m, t requires 0 <= t < m => Assemble(order, Slice8(q, t)))
  }

  /**
   * The lines from the address in the read direction on, q being the samples
   * from there: the address bytes, stopped at the first NACK, and once they
   * are acknowledged, with a buffer, all `total` data bytes received.
   */
  function ReadTail(order: BitOrder, a: seq<bv8>, hasData: bool, total: nat, q: seq<bv8>): seq<Event>
  {
    var k := FirstNack(q, |a|);
    if k < |a| then WriteBytesTrace(order, a, q, k + 1)
    else WriteBytesTrace(order, a, q, |a|) + (if hasData then ReadBytesTrace(order, Drop(q, |a|), AckPlan(total), total) else [])
  }

  /**
   * The lines between START and STOP of a read: the dummy-write bytes p,
   * stopped at the first NACK, else a repeated START (when `restart`) and the
   * rest of the transaction.
   */
  function ReadBody(order: BitOrder, p: seq<bv8>, restart: bool, a: seq<bv8>, hasData: bool, total: nat, q: seq<bv8>): seq<Event>
  {
    var k := FirstNack(q, |p|);
    if k < |p| then WriteBytesTrace(order, p, q, k + 1)
    else WriteBytesTrace(order, p, q, |p|) + (if restart then RestartTrace() else []) + ReadTail(order, a, hasData, total, Drop(q, |p|))
  }

  /** A read whose dummy write is refused at byte s - 1 ends there. */
  lemma ReadBodyAtDummyNack(order: BitOrder, p: seq<bv8>, restart: bool, a: seq<bv8>, hasData: bool, total: nat, q: seq<bv8>, s: nat)
    requires 0 < s <= |p| && AckedUpTo(q, s - 1) && SampleAt(q, s - 1) != ACK
    ensures ReadBody(order, p, restart, a, hasData, total, q) == WriteBytesTrace(order, p, q, s)
  {
    AckedUpToMeans(q, s - 1);
    FirstNackIs(q, |p|, s - 1);
  }

  /** A read whose dummy write is acknowledged goes on past the repeated START. */
  lemma ReadBodyPastDummy(order: BitOrder, p: seq<bv8>, restart: bool, a: seq<bv8>, hasData: bool, total: nat, q: seq<bv8>)
    requires AckedUpTo(q, |p|)
    ensures ReadBody(order, p, restart, a, hasData, total, q) ==
      WriteBytesTrace(order, p, q, |p|) + (if restart then RestartTrace() else []) + ReadTail(order, a, hasData, total, Drop(q, |p|))
  {
    AckedUpToMeans(q, |p|);
    FirstNackIs(q, |p|, |p|);
  }

  /**
   * Samples consumed from the address on: one per address byte up to the
   * first NACK; else one per address byte and, with a buffer, eight per data byte.
   */
  function TailConsumed(n: nat, hasData: bool, total: nat, q: seq<bv8>): nat
  {
    if FirstNack(q, n) < n then SentCount(q, n) else n + (if hasData then 8 * total else 0)
  }

  /** A read whose address is refused at byte s - 1 ends there. */
  lemma ReadTailAtNack(order: BitOrder, a: seq<bv8>, hasData: bool, total: nat, q: seq<bv8>, s: nat)
    requires 0 < s <= |a| && AckedUpTo(q, s - 1) && SampleAt(q, s - 1) != ACK
    ensures FirstNack(q, |a|) < |a| && TailConsumed(|a|, hasData, total, q) == s
    ensures ReadTail(order, a, hasData, total, q) == WriteBytesTrace(order, a, q, s)
  {
    AckedUpToMeans(q, s - 1);
    FirstNackIs(q, |a|, s - 1);
  }

  /** An addressed slave is read from, when there is a buffer. */
  lemma ReadTailAddressed(order: BitOrder, a: seq<bv8>, hasData: bool, total: nat, q: seq<bv8>)
    requires AckedUpTo(q, |a|)
    ensures FirstNack(q, |a|) == |a| && TailConsumed(|a|, hasData, total, q) == |a| + (if hasData then 8 * total else 0)
    ensures ReadTail(order, a, hasData, total, q) ==
      WriteBytesTrace(order, a, q, |a|) + (if hasData then ReadBytesTrace(order, Drop(q, |a|), AckPlan(total), total) else [])
  {
    AckedUpToMeans(q, |a|);
    FirstNackIs(q, |a|, |a|);
  }

  /** The lines of a read transaction. */
  function ReadTrace(c: Config, address: bv32, hasData: bool, size: nat, q: seq<bv8>): seq<Event>
    requires c.Valid()
  {
    StartTrace() +
    ReadBody(c.order, DummyFrame(c, address), c.hasDummyWrite, AddressFrame(c, READ), hasData, size * DataLen(c), q) +
    StopTrace()
  }

  /** Samples a read transaction consumes: one per byte sent, eight per byte received. */
  function ReadConsumed(c: Config, address: bv32, hasData: bool, size: nat, q: seq<bv8>): nat
    requires c.Valid()
  {
    var p := |DummyFrame(c, address)|;
    var a := |AddressFrame(c, READ)|;
    if !DummyAcked(c, address, q) then SentCount(q, p)
    else p + TailConsumed(a, hasData, size * DataLen(c), Drop(q, p))
  }

  /** The samples the data bytes of a read are assembled from: those after the dummy write and the address. */
  function DataSamples(c: Config, address: bv32, q: seq<bv8>): seq<bv8>
    requires c.Valid()
  {
    Drop(Drop(q, |DummyFrame(c, address)|), |AddressFrame(c, READ)|)
  }

  /** `soft_i2c_read`'s result: every element once the slave is addressed and a buffer given, else none. */
  function ReadCount(c: Config, address: bv32, hasData: bool, size: nat, q: seq<bv8>): (count: nat)
    requires c.Valid()
    ensures count == size || count == 0
    ensures Addressed(c, address, q) && hasData ==> count == size
    ensures !(Addressed(c, address, q) && hasData) ==> count == 0
    ensures size > 0 ==> (count == size <==> Addressed(c, address, q) && hasData)
  {
    if Addressed(c, address, q) && hasData then size else 0
  }

  /** A read whose dummy write is refused at byte s - 1 ends there, having consumed s samples and read nothing. */
  lemma ReadAtDummyNack(c: Config, address: bv32, hasData: bool, size: nat, q: seq<bv8>, s: nat, prefix: seq<Event>)
    requires c.Valid() && 0 < s <= |DummyFrame(c, address)|
    requires AckedUpTo(q, s - 1) && SampleAt(q, s - 1) != ACK
    ensures prefix + ReadBody(c.order, DummyFrame(c, address), c.hasDummyWrite, AddressFrame(c, READ), hasData, size * DataLen(c), q)
      == prefix + WriteBytesTrace(c.order, DummyFrame(c, address), q, s)
    ensures ReadConsumed(c, address, hasData, size, q) == s && ReadCount(c, address, hasData, size, q) == 0
    ensures !Addressed(c, address, q)
  {
    ReadBodyAtDummyNack(c.order, DummyFrame(c, address), c.hasDummyWrite, AddressFrame(c, READ), hasData, size * DataLen(c), q, s);
    SentCountAtNack(q, |DummyFrame(c, address)|, s);
  }

  /**
   * A read whose dummy write is acknowledged but whose address is refused at
   * byte s - 1 ends there, having consumed the dummy bytes and s more samples.
   */
  lemma ReadAtAddressNack(c: Config, address: bv32, hasData: bool, size: nat, q: seq<bv8>, s: nat, prefix: seq<Event>)
    requires c.Valid() && AckedUpTo(q, |DummyFrame(c, address)|) && 0 < s <= |AddressFrame(c, READ)|
    requires AckedUpTo(Drop(q, |DummyFrame(c, address)|), s - 1) && SampleAt(Drop(q, |DummyFrame(c, address)|), s - 1) != ACK
    ensures var p := DummyFrame(c, address); var q1 := Drop(q, |p|);
      && prefix + ReadBody(c.order, p, c.hasDummyWrite, AddressFrame(c, READ), hasData, size * DataLen(c), q)
         == prefix + WriteBytesTrace(c.order, p, q, |p|) + (if c.hasDummyWrite then RestartTrace() else [])
            + WriteBytesTrace(c.order, AddressFrame(c, READ), q1, s)
      && Drop(q1, s) == Drop(q, ReadConsumed(c, address, hasData, size, q))
      && ReadCount(c, address, hasData, size, q) == 0 && !Addressed(c, address, q)
  {
    var p := DummyFrame(c, address);
    var q1 := Drop(q, |p|);
    ReadBodyPastDummy(c.order, p, c.hasDummyWrite, AddressFrame(c, READ), hasData, size * DataLen(c), q);
    ReadTailAtNack(c.order, AddressFrame(c, READ), hasData, size * DataLen(c), q1, s);
    Regroup(prefix, WriteBytesTrace(c.order, p, q, |p|), if c.hasDummyWrite then RestartTrace() else [],
            WriteBytesTrace(c.order, AddressFrame(c, READ), q1, s));
    SentCountAllAcked(q, |p|);
    DropDrop(q, |p|, s);
  }

  /** A read whose dummy write and address are acknowledged is addressed, and reads every element when there is a buffer. */
  lemma ReadAddressed(c: Config, address: bv32, hasData: bool, size: nat, q: seq<bv8>)
    requires c.Valid() && AckedUpTo(q, |DummyFrame(c, address)|)
    requires AckedUpTo(Drop(q, |DummyFrame(c, address)|), |AddressFrame(c, READ)|)
    ensures Addressed(c, address, q)
    ensures DataSamples(c, address, q) == Drop(Drop(q, |DummyFrame(c, address)|), |AddressFrame(c, READ)|)
    ensures ReadCount(c, address, hasData, size, q) == (if hasData then size else 0)
    ensures ReadConsumed(c, address, hasData, size, q) ==
      |DummyFrame(c, address)| + |AddressFrame(c, READ)| + (if hasData then 8 * (size * DataLen(c)) else 0)
  {
    SentCountAllAcked(q, |DummyFrame(c, address)|);
    SentCountAllAcked(Drop(q, |DummyFrame(c, address)|), |AddressFrame(c, READ)|);
  }

  /** Dropping the dummy write, the address and, with a buffer, `total` data bytes leaves what dropping their sum leaves. */
  lemma RestAfter(q: seq<bv8>, p: nat, a: nat, hasData: bool, total: nat, consumed: nat)
    requires consumed == p + a + (if hasData then 8 * total else 0)
    ensures hasData ==> Drop(Drop(Drop(q, p), a), 8 * total) == Drop(q, consumed)
    ensures !hasData ==> Drop(Drop(q, p), a) == Drop(q, consumed)
  {
    DropDrop(q, p, a);
    DropDrop(q, p + a, 8 * total);
  }

  /** The samples an addressed read leaves: those after the dummy write, the address and, with a buffer, the data. */
  lemma ReadAddressedRest(c: Config, address: bv32, hasData: bool, size: nat, q: seq<bv8>)
    requires c.Valid() && AckedUpTo(q, |DummyFrame(c, address)|)
    requires AckedUpTo(Drop(q, |DummyFrame(c, address)|), |AddressFrame(c, READ)|)
    ensures var q2 := Drop(Drop(q, |DummyFrame(c, address)|), |AddressFrame(c, READ)|);
      && (hasData ==> Drop(q2, 8 * (size * DataLen(c))) == Drop(q, ReadConsumed(c, address, hasData, size, q)))
      && (!hasData ==> q2 == Drop(q, ReadConsumed(c, address, hasData, size, q)))
  {
    var p := |DummyFrame(c, address)|;
    var a := |AddressFrame(c, READ)|;
    assert ReadConsumed(c, address, hasData, size, q) == p + a + (if hasData then 8 * (size * DataLen(c)) else 0) by {
      ReadAddressed(c, address, hasData, size, q);
    }
    RestAfter(q, p, a, hasData, size * DataLen(c), ReadConsumed(c, address, hasData, size, q));
  }

  /** The lines of an addressed read: the dummy write, the repeated START when configured, the address and the data. */
  lemma ReadAddressedTrace(c: Config, address: bv32, hasData: bool, size: nat, q: seq<bv8>, prefix: seq<Event>)
    requires c.Valid() && AckedUpTo(q, |DummyFrame(c, address)|)
    requires AckedUpTo(Drop(q, |DummyFrame(c, address)|), |AddressFrame(c, READ)|)
    ensures var p := DummyFrame(c, address); var q1 := Drop(q, |p|); var a := AddressFrame(c, READ); var total := size * DataLen(c);
      prefix + ReadBody(c.order, p, c.hasDummyWrite, a, hasData, total, q)
      == prefix + WriteBytesTrace(c.order, p, q, |p|) + (if c.hasDummyWrite then RestartTrace() else [])
         + WriteBytesTrace(c.order, a, q1, |a|) + (if hasData then ReadBytesTrace(c.order, Drop(q1, |a|), AckPlan(total), total) else [])
  {
    var p := DummyFrame(c, address);
    var q1 := Drop(q, |p|);
    var a := AddressFrame(c, READ);
    var total := size * DataLen(c);
    ReadBodyPastDummy(c.order, p, c.hasDummyWrite, a, hasData, total, q);
    ReadTailAddressed(c.order, a, hasData, total, q1);
    Regroup5(prefix, WriteBytesTrace(c.order, p, q, |p|), if c.hasDummyWrite then RestartTrace() else [],
             WriteBytesTrace(c.order, a, q1, |a|), if hasData then ReadBytesTrace(c.order, Drop(q1, |a|), AckPlan(total), total) else []);
  }

  /** Buffer index `soft_i2c_read` stores the j-th received data byte at. */
  function ReadSlot(c: Config, offset: nat, j: nat): (k: nat)
    requires c.Valid()
    ensures k == Slot(c, offset, j)
  {
    var len := DataLen(c);
    (offset + j / len) * Stride(len) + ReadIndex(c.mEndian, c.sdEndian, len, j % len)
  }

  /** The buffer after the first m received bytes of `rx` are stored in turn. */
  function ReadBuffer(buf: seq<bv8>, c: Config, offset: nat, size: nat, rx: seq<bv8>, m: nat): (r: seq<bv8>)
    requires c.Valid() && (offset + size) * Stride(DataLen(c)) <= |buf| && m <= |rx| <= size * DataLen(c)
    ensures |r| == |buf|
  {
    if m == 0 then buf
    else
      SlotBound(c, offset, size, m - 1);
      ReadBuffer(buf, c, offset, size, rx, m - 1)[ReadSlot(c, offset, m - 1) := rx[m - 1]]
  }

  /** Storing received byte i of element n writes index `(offset + n) * stride + ReadIndex(i)`. */
  lemma ReadBufferStep(buf: seq<bv8>, c: Config, offset: nat, size: nat, rx: seq<bv8>, n: nat, i: nat)
    requires c.Valid() && (offset + size) * Stride(DataLen(c)) <= |buf| && |rx| == size * DataLen(c)
    requires n < size && i < DataLen(c)
    ensures var j := n * DataLen(c) + i; var k := (offset + n) * Stride(DataLen(c)) + ReadIndex(c.mEndian, c.sdEndian, DataLen(c), i);
      && j < |rx| && k < |buf|
      && ReadBuffer(buf, c, offset, size, rx, j + 1) == ReadBuffer(buf, c, offset, size, rx, j)[k := rx[j]]
  {
    var len := DataLen(c);
    var j := n * len + i;
    MulMono(n + 1, size, len);
    SlotOfElement(c, offset, n, i);
    SlotBound(c, offset, size, j);
  }

  /** The acknowledge planned for byte i of element n: NACK for the last byte of the last element only. */
  lemma AckPlanAt(size: nat, n: nat, i: nat, len: nat)
    requires 1 <= len <= 4 && n < size && i < len
    ensures n * len + i < size * len
    ensures AckPlan(size * len)[n * len + i] == if n == size - 1 && i == len - 1 then NACK else ACK
  {
    MulMono(n + 1, size, len);
    LastByteOfTransfer(n, i, len, size);
  }

  /**
   * After the first m bytes of rx are stored, the index of received byte t
   * holds it, and every index no received byte maps to is unchanged.
   */
  lemma {:induction false} ReadBufferContents(buf: seq<bv8>, c: Config, offset: nat, size: nat, rx: seq<bv8>, m: nat)
    requires c.Valid() && (offset + size) * Stride(DataLen(c)) <= |buf| && m <= |rx| <= size * DataLen(c)
    ensures forall t :: 0 <= t < m ==> Slot(c, offset, t) < |buf| && ReadBuffer(buf, c, offset, size, rx, m)[Slot(c, offset, t)] == rx[t]
    ensures forall k :: 0 <= k < |buf| && (forall t :: 0 <= t < m ==> Slot(c, offset, t) != k) ==>
      ReadBuffer(buf, c, offset, size, rx, m)[k] == buf[k]
  {
    if m > 0 {
      ReadBufferContents(buf, c, offset, size, rx, m - 1);
      var last := m - 1;
      SlotBound(c, offset, size, last);
      forall t | 0 <= t < m
        ensures Slot(c, offset, t) < |buf| && ReadBuffer(buf, c, offset, size, rx, m)[Slot(c, offset, t)] == rx[t]
      {
        SlotBound(c, offset, size, t);
        if t < last && Slot(c, offset, t) == Slot(c, offset, last) {
          SlotInjective(c, offset, t, last);
        }
      }
    }
  }

  // ---------------------------------------------------------------- read storage as written

  /**
   * The configuration in which the read side of src/soft_i2c.c stores bytes
   * elsewhere than the write side sends them from: a little-endian master, a
   * big-endian slave and 3-byte elements (line 311).
   */
  predicate ShiftedRead(c: Config)
  {
    c.mEndian == Little && c.sdEndian == Big && DataLen(c) == 3
  }

  /**
   * Buffer index the source, as written, stores the j-th received data byte
   * at: the write-side index, one higher in the shifted configuration, and
   * then never the first byte of an element's slot.
   */
  function ReadSlotAsWritten(c: Config, offset: nat, j: nat): (k: nat)
    requires c.Valid()
    ensures k == Slot(c, offset, j) + (if ShiftedRead(c) then 1 else 0)
    ensures var len := DataLen(c);
      (offset + j / len) * Stride(len) <= k < (offset + j / len + 1) * Stride(len)
    ensures ShiftedRead(c) ==> (offset + j / DataLen(c)) * Stride(DataLen(c)) < k
  {
    var len := DataLen(c);
    ReadIndexAsWrittenAgrees(c.mEndian, c.sdEndian, len, j % len);
    if ShiftedRead(c) then
      ReadIndexAsWrittenShifts(j % len);
      (offset + j / len) * Stride(len) + ReadIndexAsWritten(c.mEndian, c.sdEndian, len, j % len)
    else
      (offset + j / len) * Stride(len) + ReadIndexAsWritten(c.mEndian, c.sdEndian, len, j % len)
  }

  /** An index inside the slot of data byte j of `size` elements lies inside their region. */
  lemma InRegion(c: Config, offset: nat, size: nat, j: nat, k: nat)
    requires c.Valid() && j < size * DataLen(c)
    requires k < (offset + j / DataLen(c) + 1) * Stride(DataLen(c))
    ensures k < (offset + size) * Stride(DataLen(c))
  {
    var len := DataLen(c);
    DivBounds(j, len);
    if j / len >= size {
      MulMono(size, j / len, len);
    }
    MulMono(offset + j / len + 1, offset + size, Stride(len));
  }

  /** The buffer after the first m received bytes of `rx` are stored as the source does. */
  function ReadBufferAsWritten(buf: seq<bv8>, c: Config, offset: nat, size: nat, rx: seq<bv8>, m: nat): (r: seq<bv8>)
    requires c.Valid() && (offset + size) * Stride(DataLen(c)) <= |buf| && m <= |rx| <= size * DataLen(c)
    ensures |r| == |buf|
  {
    if m == 0 then buf
    else
      InRegion(c, offset, size, m - 1, ReadSlotAsWritten(c, offset, m - 1));
      ReadBufferAsWritten(buf, c, offset, size, rx, m - 1)[ReadSlotAsWritten(c, offset, m - 1) := rx[m - 1]]
  }

  /** Outside the shifted configuration the source stores exactly as the corrected read does. */
  lemma {:induction false} ReadBufferAsWrittenAgrees(buf: seq<bv8>, c: Config, offset: nat, size: nat, rx: seq<bv8>, m: nat)
    requires c.Valid() && (offset + size) * Stride(DataLen(c)) <= |buf| && m <= |rx| <= size * DataLen(c)
    requires !ShiftedRead(c)
    ensures ReadBufferAsWritten(buf, c, offset, size, rx, m) == ReadBuffer(buf, c, offset, size, rx, m)
  {
    if m > 0 {
      ReadBufferAsWrittenAgrees(buf, c, offset, size, rx, m - 1);
    }
  }

  /** Buffer index of the first byte of element n's slot. */
  function SlotStart(c: Config, offset: nat, n: nat): nat
    requires c.Valid()
  {
    (offset + n) * Stride(DataLen(c))
  }

  /** An index strictly inside the slot starting at a * s is the start of no slot. */
  lemma NotSlotStart(a: nat, b: nat, k: nat, s: nat)
    requires s <= 4 && a * s < k < (a + 1) * s
    ensures k != b * s
  {
    if b <= a {
      MulMono(b, a, s);
    } else {
      MulMono(a + 1, b, s);
    }
  }

  /**
   * In the shifted configuration the source stores received byte t one index
   * above the one it is sent from, and the first byte of every element's slot
   * keeps what it held before the read.
   */
  lemma {:induction false} ReadBufferAsWrittenShifted(buf: seq<bv8>, c: Config, offset: nat, size: nat, rx: seq<bv8>, m: nat)
    requires c.Valid() && (offset + size) * Stride(DataLen(c)) <= |buf| && m <= |rx| <= size * DataLen(c)
    requires ShiftedRead(c)
    ensures forall t :: 0 <= t < m ==>
      Slot(c, offset, t) + 1 < |buf| && ReadBufferAsWritten(buf, c, offset, size, rx, m)[Slot(c, offset, t) + 1] == rx[t]
    ensures forall n :: 0 <= n < size ==>
      SlotStart(c, offset, n) < |buf| &&
      ReadBufferAsWritten(buf, c, offset, size, rx, m)[SlotStart(c, offset, n)] == buf[SlotStart(c, offset, n)]
  {
    var len := DataLen(c);
    forall n | 0 <= n < size
      ensures SlotStart(c, offset, n) < |buf|
    {
      MulMono(offset + n + 1, offset + size, Stride(len));
    }
    if m > 0 {
      ReadBufferAsWrittenShifted(buf, c, offset, size, rx, m - 1);
      var last := m - 1;
      InRegion(c, offset, size, last, ReadSlotAsWritten(c, offset, last));
      forall t | 0 <= t < m
        ensures Slot(c, offset, t) + 1 < |buf| && ReadBufferAsWritten(buf, c, offset, size, rx, m)[Slot(c, offset, t) + 1] == rx[t]
      {
        InRegion(c, offset, size, t, ReadSlotAsWritten(c, offset, t));
        if t < last && Slot(c, offset, t) == Slot(c, offset, last) {
          SlotInjective(c, offset, t, last);
        }
      }
      forall n | 0 <= n < size
        ensures ReadBufferAsWritten(buf, c, offset, size, rx, m)[SlotStart(c, offset, n)] == buf[SlotStart(c, offset, n)]
      {
        NotSlotStart(offset + last / len, offset + n, ReadSlotAsWritten(c, offset, last), Stride(len));
      }
    }
  }

  // ---------------------------------------------------------------- echo

  /** The samples a slave presents to return `bytes` bit by bit in the given order. */
  function EchoSamples(order: BitOrder, bytes: seq<bv8>): (q: seq<bv8>)
    ensures |q| == 8 * |bytes|
  {
    if bytes == [] then [] else EchoSamples(order, bytes[..|bytes| - 1]) + WireBits(order, bytes[|bytes| - 1])
  }

  lemma {:induction false} EchoSamplesAt(order: BitOrder, bytes: seq<bv8>, t: nat, b: nat)
    requires t < |bytes| && b < 8
    ensures EchoSamples(order, bytes)[8 * t + b] == WireBits(order, bytes[t])[b]
  {
    var init := bytes[..|bytes| - 1];
    var q := EchoSamples(order, bytes);
    assert q == EchoSamples(order, init) + WireBits(order, bytes[|bytes| - 1]);
    if t < |init| {
      EchoSamplesAt(order, init, t, b);
      assert q[8 * t + b] == EchoSamples(order, init)[8 * t + b];
    } else {
      assert q[8 * t + b] == WireBits(order, bytes[t])[b];
    }
  }

  lemma EchoSlices(order: BitOrder, bytes: seq<bv8>)
    ensures forall t :: 0 <= t < |bytes| ==> Slice8(EchoSamples(order, bytes), t) == WireBits(order, bytes[t])
  {
    var q := EchoSamples(order, bytes);
    forall t | 0 <= t < |bytes|
      ensures Slice8(q, t) == WireBits(order, bytes[t])
    {
      forall b | 0 <= b < 8
        ensures Slice8(q, t)[b] == WireBits(order, bytes[t])[b]
      {
        EchoSamplesAt(order, bytes, t, b);
      }
    }
  }

  /** Receiving from a slave that echoes bytes bit by bit gives back exactly those bytes. */
  lemma EchoReceived(order: BitOrder, bytes: seq<bv8>)
    ensures Received(order, EchoSamples(order, bytes), |bytes|) == bytes
  {
    EchoSlices(order, bytes);
    forall t | 0 <= t < |bytes|
      ensures Received(order, EchoSamples(order, bytes), |bytes|)[t] == bytes[t]
    {
      AssembleWireBits(order, bytes[t]);
    }
  }

  /**
   * Write-then-read round trip: if a slave returns the data bytes a write sent,
   * a read with the same configuration, offset and size stores every byte of
   * the written elements back at its own index and touches nothing else.
   */
  lemma EchoRoundTrip(c: Config, buf: seq<bv8>, dest: seq<bv8>, offset: nat, size: nat)
    requires c.Valid()
    requires (offset + size) * Stride(DataLen(c)) <= |buf| && |buf| == |dest|
    ensures var w := DataStream(c, buf, offset, size);
      var r := ReadBuffer(dest, c, offset, size, Received(c.order, EchoSamples(c.order, w), |w|), |w|);
      && (forall t :: 0 <= t < |w| ==> Slot(c, offset, t) < |buf| && r[Slot(c, offset, t)] == buf[Slot(c, offset, t)])
      && (forall k :: 0 <= k < |dest| && (forall t :: 0 <= t < |w| ==> Slot(c, offset, t) != k) ==> r[k] == dest[k])
  {
    var w := DataStream(c, buf, offset, size);
    EchoReceived(c.order, w);
    ReadBufferContents(dest, c, offset, size, w, |w|);
  }

  /**
   * Write-then-read as the source stores: outside the shifted configuration a
   * read restores every written byte and touches nothing else.
   */
  lemma EchoRoundTripAsWritten(c: Config, buf: seq<bv8>, dest: seq<bv8>, offset: nat, size: nat)
    requires c.Valid() && !ShiftedRead(c)
    requires (offset + size) * Stride(DataLen(c)) <= |buf| && |buf| == |dest|
    ensures var w := DataStream(c, buf, offset, size);
      var r := ReadBufferAsWritten(dest, c, offset, size, Received(c.order, EchoSamples(c.order, w), |w|), |w|);
      && (forall t :: 0 <= t < |w| ==> Slot(c, offset, t) < |buf| && r[Slot(c, offset, t)] == buf[Slot(c, offset, t)])
      && (forall k :: 0 <= k < |dest| && (forall t :: 0 <= t < |w| ==> Slot(c, offset, t) != k) ==> r[k] == dest[k])
  {
    var w := DataStream(c, buf, offset, size);
    ReadBufferAsWrittenAgrees(dest, c, offset, size, Received(c.order, EchoSamples(c.order, w), |w|), |w|);
    EchoRoundTrip(c, buf, dest, offset, size);
  }

  /**
   * In the shifted configuration the source's read puts every written byte
   * one index above where the write took it from, and leaves the first byte
   * of each element's slot as it was: the round trip fails.
   */
  lemma EchoShiftedAsWritten(c: Config, buf: seq<bv8>, dest: seq<bv8>, offset: nat, size: nat)
    requires c.Valid() && ShiftedRead(c)
    requires (offset + size) * Stride(DataLen(c)) <= |buf| && |buf| == |dest|
    ensures var w := DataStream(c, buf, offset, size);
      var r := ReadBufferAsWritten(dest, c, offset, size, Received(c.order, EchoSamples(c.order, w), |w|), |w|);
      && (forall t :: 0 <= t < |w| ==> Slot(c, offset, t) + 1 < |buf| && r[Slot(c, offset, t) + 1] == buf[Slot(c, offset, t)])
      && (forall n :: 0 <= n < size ==> SlotStart(c, offset, n) < |dest| && r[SlotStart(c, offset, n)] == dest[SlotStart(c, offset, n)])
  {
    var w := DataStream(c, buf, offset, size);
    EchoReceived(c.order, w);
    ReadBufferAsWrittenShifted(dest, c, offset, size, w, |w|);
  }

  /**
   * One 3-byte element 0x030201 written from [1, 2, 3, 0] and echoed back is
   * stored by the source as [0, 1, 2, 3], i.e. as 0x030201 << 8.
   */
  lemma EchoShiftedExample(c: Config)
    requires c.Valid() && ShiftedRead(c)
    ensures var buf: seq<bv8> := [1, 2, 3, 0];
      var w := DataStream(c, buf, 0, 1);
      ReadBufferAsWritten([0, 0, 0, 0], c, 0, 1, Received(c.order, EchoSamples(c.order, w), |w|), |w|) == [0, 1, 2, 3]
  {
    var buf: seq<bv8> := [1, 2, 3, 0];
    var w := DataStream(c, buf, 0, 1);
    var r := ReadBufferAsWritten([0, 0, 0, 0], c, 0, 1, Received(c.order, EchoSamples(c.order, w), |w|), |w|);
    EchoShiftedAsWritten(c, buf, [0, 0, 0, 0], 0, 1);
    assert Slot(c, 0, 0) == 2 && Slot(c, 0, 1) == 1 && Slot(c, 0, 2) == 0 && SlotStart(c, 0, 0) == 0;
    assert r[3] == buf[2] && r[2] == buf[1] && r[1] == buf[0] && r[0] == 0;
  }

  // ---------------------------------------------------------------- bus conditions

  lemma {:induction false} WriteBytesQuiet(ls: LineState, order: BitOrder, bytes: seq<bv8>, q: seq<bv8>, n: nat)
    requires ls.scl == 0 && n <= |bytes|
    ensures Conditions(ls, WriteBytesTrace(order, bytes, q, n)) == []
    ensures Final(ls, WriteBytesTrace(order, bytes, q, n)).scl == 0
  {
    if n > 0 {
      WriteBytesQuiet(ls, order, bytes, q, n - 1);
      WriteBytesAppendQuiet(ls, order, bytes, q, n);
    }
  }

  lemma WriteBytesAppendQuiet(ls: LineState, order: BitOrder, bytes: seq<bv8>, q: seq<bv8>, n: nat)
    requires 0 < n <= |bytes|
    requires Conditions(ls, WriteBytesTrace(order, bytes, q, n - 1)) == []
    requires Final(ls, WriteBytesTrace(order, bytes, q, n - 1)).scl == 0
    ensures Conditions(ls, WriteBytesTrace(order, bytes, q, n)) == []
    ensures Final(ls, WriteBytesTrace(order, bytes, q, n)).scl == 0
  {
    var prev := WriteBytesTrace(order, bytes, q, n - 1);
    var t := WriteByteTrace(order, bytes[n - 1], SampleAt(q, n - 1));
    WriteByteQuiet(Final(ls, prev), order, bytes[n - 1], SampleAt(q, n - 1));
    QuietAppend(ls, prev, t);
  }

  lemma {:induction false} ReadBytesQuiet(ls: LineState, order: BitOrder, q: seq<bv8>, acks: seq<bv8>, n: nat)
    requires ls.scl == 0 && n <= |acks|
    ensures Conditions(ls, ReadBytesTrace(order, q, acks, n)) == []
    ensures Final(ls, ReadBytesTrace(order, q, acks, n)).scl == 0
  {
    if n > 0 {
      var prev := ReadBytesTrace(order, q, acks, n - 1);
      var t := ReadByteTrace(Slice8(q, n - 1), acks[n - 1]);
      ReadBytesQuiet(ls, order, q, acks, n - 1);
      ReadByteQuiet(Final(ls, prev), Slice8(q, n - 1), acks[n - 1]);
      QuietAppend(ls, prev, t);
      assert ReadBytesTrace(order, q, acks, n) == prev + t;
    }
  }

  /** A write transaction from an idle bus is one START and one STOP, and leaves the bus idle. */
  lemma WriteTraceConditions(c: Config, stream: seq<bv8>, q: seq<bv8>)
    ensures Conditions(IDLE_LINES, WriteTrace(c, stream, q)) == [StartCondition, StopCondition]
    ensures Final(IDLE_LINES, WriteTrace(c, stream, q)) == IDLE_LINES
  {
    var body := WriteBytesTrace(c.order, stream, q, SentCount(q, |stream|));
    StartGeneratesStart(IDLE_LINES);
    var l1 := Final(IDLE_LINES, StartTrace());
    WriteBytesQuiet(l1, c.order, stream, q, SentCount(q, |stream|));
    ConditionsAppend(IDLE_LINES, StartTrace(), body);
    ConditionsAppend(IDLE_LINES, StartTrace() + body, StopTrace());
    StopGeneratesStop(Final(l1, body));
  }

  lemma ReadTailQuiet(ls: LineState, order: BitOrder, a: seq<bv8>, hasData: bool, total: nat, q: seq<bv8>)
    requires ls.scl == 0
    ensures Conditions(ls, ReadTail(order, a, hasData, total, q)) == []
    ensures Final(ls, ReadTail(order, a, hasData, total, q)).scl == 0
  {
    var k := FirstNack(q, |a|);
    if k < |a| {
      assert ReadTail(order, a, hasData, total, q) == WriteBytesTrace(order, a, q, k + 1);
      WriteBytesQuiet(ls, order, a, q, k + 1);
    } else {
      var ta := WriteBytesTrace(order, a, q, |a|);
      var td: seq<Event> := if hasData then ReadBytesTrace(order, Drop(q, |a|), AckPlan(total), total) else [];
      assert ReadTail(order, a, hasData, total, q) == ta + td;
      WriteBytesQuiet(ls, order, a, q, |a|);
      if hasData {
        ReadBytesQuiet(Final(ls, ta), order, Drop(q, |a|), AckPlan(total), total);
      }
      ConditionsAppend(ls, ta, td);
    }
  }

  /** A read whose dummy write is refused consists of the dummy bytes up to the refused one. */
  lemma ReadBodyRefused(order: BitOrder, p: seq<bv8>, restart: bool, a: seq<bv8>, hasData: bool, total: nat, q: seq<bv8>)
    requires FirstNack(q, |p|) < |p|
    ensures ReadBody(order, p, restart, a, hasData, total, q) == WriteBytesTrace(order, p, q, FirstNack(q, |p|) + 1)
  {
  }

  /** A read whose dummy write is acknowledged is the dummy write, the repeated START when configured, and the tail. */
  lemma ReadBodyAccepted(order: BitOrder, p: seq<bv8>, restart: bool, a: seq<bv8>, hasData: bool, total: nat, q: seq<bv8>)
    requires FirstNack(q, |p|) == |p|
    ensures ReadBody(order, p, restart, a, hasData, total, q)
      == WriteBytesTrace(order, p, q, |p|) + (if restart then RestartTrace() else []) + ReadTail(order, a, hasData, total, Drop(q, |p|))
  {
  }

  /** Between START and STOP a read generates only the repeated START, after a complete dummy write. */
  lemma ReadBodyConditions(ls: LineState, order: BitOrder, p: seq<bv8>, restart: bool, a: seq<bv8>, hasData: bool, total: nat, q: seq<bv8>)
    requires ls.scl == 0
    ensures Conditions(ls, ReadBody(order, p, restart, a, hasData, total, q)) ==
      if restart && FirstNack(q, |p|) == |p| then [StartCondition] else []
    ensures Final(ls, ReadBody(order, p, restart, a, hasData, total, q)).scl == 0
  {
    var k := FirstNack(q, |p|);
    if k < |p| {
      ReadBodyRefused(order, p, restart, a, hasData, total, q);
      WriteBytesQuiet(ls, order, p, q, k + 1);
    } else {
      var w1 := WriteBytesTrace(order, p, q, |p|);
      var rs: seq<Event> := if restart then RestartTrace() else [];
      var tail := ReadTail(order, a, hasData, total, Drop(q, |p|));
      ReadBodyAccepted(order, p, restart, a, hasData, total, q);
      WriteBytesQuiet(ls, order, p, q, |p|);
      var l2 := Final(ls, w1);
      if restart {
        StartGeneratesStart(l2);
      }
      ReadTailQuiet(Final(l2, rs), order, a, hasData, total, Drop(q, |p|));
      ConditionsAppend(ls, w1, rs);
      ConditionsAppend(ls, w1 + rs, tail);
    }
  }

  /**
   * A read transaction from an idle bus is a START, a repeated START exactly
   * when a dummy write was acknowledged completely, and a STOP; it leaves the
   * bus idle.
   */
  lemma ReadTraceConditions(c: Config, address: bv32, hasData: bool, size: nat, q: seq<bv8>)
    requires c.Valid()
    ensures Conditions(IDLE_LINES, ReadTrace(c, address, hasData, size, q)) ==
        [StartCondition] +
        (if c.hasDummyWrite && DummyAcked(c, address, q) then [StartCondition] else []) +
        [StopCondition]
    ensures Final(IDLE_LINES, ReadTrace(c, address, hasData, size, q)) == IDLE_LINES
  {
    var body := ReadBody(c.order, DummyFrame(c, address), c.hasDummyWrite, AddressFrame(c, READ), hasData, size * DataLen(c), q);
    StartGeneratesStart(IDLE_LINES);
    var l1 := Final(IDLE_LINES, StartTrace());
    ReadBodyConditions(l1, c.order, DummyFrame(c, address), c.hasDummyWrite, AddressFrame(c, READ), hasData, size * DataLen(c), q);
    ConditionsAppend(IDLE_LINES, StartTrace(), body);
    ConditionsAppend(IDLE_LINES, StartTrace() + body, StopTrace());
    StopGeneratesStop(Final(l1, body));
  }
}
