/**
 * The engine of src/soft_i2c.c: the handle (`struct soft_i2c`), its bit-level
 * primitives, the write and read transactions, and initialisation. Each
 * method is proved against the functions of Bits, Transfer and Setup.
 */
module Engine {
  import opened SoftI2cHeader
  import opened Bus
  import opened Bits
  import opened Frames
  import opened Reorder
  import opened Transfer
  import opened Setup

  /** Facts about the sample queue after one more byte was sent. */
  lemma SendFacts(q: seq<bv8>, sent: nat)
    ensures SampleAt(Drop(q, sent), 0) == SampleAt(q, sent)
    ensures Drop(Drop(q, sent), 1) == Drop(q, sent + 1)
  {
    SampleAtDrop(q, sent, 0);
    DropDrop(q, sent, 1);
  }

  /** Facts about the sample queue after one more byte was received. */
  lemma ReceiveFacts(q: seq<bv8>, j: nat)
    ensures Slice8(Drop(q, 8 * j), 0) == Slice8(q, j)
    ensures Drop(Drop(q, 8 * j), 8) == Drop(q, 8 * (j + 1))
  {
    forall b | 0 <= b < 8
      ensures Slice8(Drop(q, 8 * j), 0)[b] == Slice8(q, j)[b]
    {
      SampleAtDrop(q, 8 * j, b);
    }
    DropDrop(q, 8 * j, 8);
  }

  lemma NextElement(n: nat, len: nat)
    ensures (n + 1) * len == n * len + len
  {
  }

  /** Appending three events one at a time is appending them together. */
  lemma Append3<T>(a: seq<T>, e1: T, e2: T, e3: T)
    ensures a + [e1] + [e2] + [e3] == a + [e1, e2, e3]
  {
  }

  /** Appending four events one at a time is appending them together. */
  lemma Append4<T>(a: seq<T>, e1: T, e2: T, e3: T, e4: T)
    ensures a + [e1] + [e2] + [e3] + [e4] == a + [e1, e2, e3, e4]
  {
  }

  /**
   * The first j received bytes `rx` are stored at their indices of `data`,
   * which held `buf` before the read.
   */
  ghost predicate Stored(c: Config, data: array<bv8>, buf: seq<bv8>, offset: nat, size: nat, rx: seq<bv8>, j: nat)
    reads data
  {
    && c.Valid()
    && (offset + size) * Stride(DataLen(c)) <= |buf| == data.Length
    && |rx| == size * DataLen(c) && j <= |rx|
    && data[..] == ReadBuffer(buf, c, offset, size, rx, j)
  }

  /** `data[k] = read_byte(...)` for byte i of element n: the received byte goes to its slot index. */
  method Store(c: Config, data: array<bv8>, k: nat, b: bv8, ghost buf: seq<bv8>, offset: nat, size: nat, ghost rx: seq<bv8>, n: nat, i: nat)
    requires n < size && i < DataLen(c) && Stored(c, data, buf, offset, size, rx, n * DataLen(c) + i)
    requires k == (offset + n) * Stride(DataLen(c)) + ReadIndex(c.mEndian, c.sdEndian, DataLen(c), i)
    requires b == rx[n * DataLen(c) + i]
    modifies data
    ensures Stored(c, data, buf, offset, size, rx, n * DataLen(c) + i + 1)
  {
    ReadBufferStep(buf, c, offset, size, rx, n, i);
    ghost var before := data[..];
    data[k] := b;
    assert data[..] == before[k := b];
  }

  class SoftI2c {
    var ops: PinOps?
    var cfg: Config
    var delays: Delays
    var x: nat
    var delay: Option<Granularity>
    var mutexCount: nat
    var mutexHolder: nat

    /** A handle before initialisation. */
    constructor ()
      ensures ops == null && delay == None
    {
      ops := null;
      cfg := Config(0, MsbFirst, Little, Little, Little, false, 0, 0, 0, 0);
      delays := Delays(false, false, false);
      x := 0;
      delay := None;
      mutexCount := 0;
      mutexHolder := 0;
    }

    /** What a successful `soft_i2c_init_ex` establishes. */
    predicate Valid()
      reads this
    {
      && ops != null && ops.sdaPresent && ops.sclPresent
      && cfg.Valid()
      && delay.Some? && delays.Has(delay.value)
    }

    /** `start`: SDA falls while SCL is high. */
    method Start()
      requires Valid()
      modifies ops
      ensures ops.trace == old(ops.trace) + StartTrace()
      ensures ops.replies == old(ops.replies)
    {
      ops.Sda(1);
      ops.Scl(1);
      ops.Sda(0);
      ops.Scl(0);
    }

    /** `restart`: the same line sequence as `start`. */
    method Restart()
      requires Valid()
      modifies ops
      ensures ops.trace == old(ops.trace) + RestartTrace()
      ensures ops.replies == old(ops.replies)
    {
      ops.Sda(1);
      ops.Scl(1);
      ops.Sda(0);
      ops.Scl(0);
    }

    /** `stop`: SDA rises while SCL is high. */
    method Stop()
      requires Valid()
      modifies ops
      ensures ops.trace == old(ops.trace) + StopTrace()
      ensures ops.replies == old(ops.replies)
    {
      ops.Scl(0);
      ops.Sda(0);
      ops.Scl(1);
      ops.Sda(1);
    }

    /** `write_byte`: eight data bits in the configured order, then the acknowledge is sampled. */
    method WriteByte(b: bv8) returns (ack: bv8)
      requires Valid()
      modifies ops
      ensures ops.trace == old(ops.trace) + WriteByteTrace(cfg.order, b, SampleAt(old(ops.replies), 0))
      ensures ops.replies == Drop(old(ops.replies), 1)
      ensures ack == AckOf(SampleAt(old(ops.replies), 0))
    {
      var i := 0;
      while i < 8
        invariant 0 <= i <= 8
        invariant ops.trace == old(ops.trace) + BitFrames(cfg.order, b, i)
        invariant ops.replies == old(ops.replies)
      {
        var level := BitAt(cfg.order, b, i);
        ghost var before := ops.trace;
        ops.Sda(level);
        ops.Scl(1);
        ops.Scl(0);
        Append3(before, Drive(SDA, level), Drive(SCL, 1), Drive(SCL, 0));
        Assoc(old(ops.trace), BitFrames(cfg.order, b, i), [Drive(SDA, level), Drive(SCL, 1), Drive(SCL, 0)]);
        BitFramesSnoc(cfg.order, b, i);
        i := i + 1;
      }
      ghost var bits := ops.trace;
      ops.Sda(1);
      ops.Scl(1);
      var sample := ops.ReadSda();
      ops.Scl(0);
      Append4(bits, Drive(SDA, 1), Drive(SCL, 1), SampleSda(sample), Drive(SCL, 0));
      Assoc(old(ops.trace), BitFrames(cfg.order, b, 8), AckFrame(sample));
      ack := if sample == ACK then ACK else NACK;
    }

    /**
     * One pass of the loop of `read_byte`: SCL high, SDA sampled and shifted
     * in from the side the bit order says, SCL low.
     */
    method ShiftIn(data: bv8, ghost r: seq<bv8>, ghost released: seq<Event>, ghost i: nat) returns (next: bv8)
      requires Valid() && i < 8
      requires ops.replies == Drop(r, i)
      requires ops.trace == released + SampleFrames(Slice8(r, 0)[..i])
      requires data == Assemble(cfg.order, Slice8(r, 0)[..i])
      modifies ops
      ensures ops.replies == Drop(r, i + 1)
      ensures ops.trace == released + SampleFrames(Slice8(r, 0)[..i + 1])
      ensures next == Assemble(cfg.order, Slice8(r, 0)[..i + 1])
    {
      ghost var samples := Slice8(r, 0);
      ghost var before := ops.trace;
      ops.Scl(1);
      SampleAtDrop(r, i, 0);
      DropDrop(r, i, 1);
      var s := ops.ReadSda();
      next := Shift(cfg.order, data, s);
      ops.Scl(0);
      AssembleSnoc(cfg.order, samples, i);
      SampleFramesSnoc(samples, i);
      Append3(before, Drive(SCL, 1), SampleSda(s), Drive(SCL, 0));
      Assoc(released, SampleFrames(samples[..i]), [Drive(SCL, 1), SampleSda(s), Drive(SCL, 0)]);
    }

    /** `read_byte`: eight samples shifted in the configured order, then `ack` is driven. */
    method ReadByte(ack: bv8) returns (data: bv8)
      requires Valid()
      modifies ops
      ensures data == Assemble(cfg.order, Slice8(old(ops.replies), 0))
      ensures ops.trace == old(ops.trace) + ReadByteTrace(Slice8(old(ops.replies), 0), ack)
      ensures ops.replies == Drop(old(ops.replies), 8)
    {
      ghost var samples := Slice8(ops.replies, 0);
      data := 0;
      ops.Sda(1);
      ghost var released := ops.trace;
      var i := 0;
      while i < 8
        invariant 0 <= i <= 8
        invariant ops.replies == Drop(old(ops.replies), i)
        invariant ops.trace == released + SampleFrames(samples[..i])
        invariant data == Assemble(cfg.order, samples[..i])
      {
        data := ShiftIn(data, old(ops.replies), released, i);
        i := i + 1;
      }
      assert samples[..8] == samples;
      ghost var frames := ops.trace;
      ops.Sda(AckLevel(ack));
      ops.Scl(1);
      ops.Scl(0);
      Append3(frames, Drive(SDA, AckLevel(ack)), Drive(SCL, 1), Drive(SCL, 0));
      Assoc(old(ops.trace), [Drive(SDA, 1)], SampleFrames(samples));
      Assoc(old(ops.trace), [Drive(SDA, 1)] + SampleFrames(samples), [Drive(SDA, AckLevel(ack)), Drive(SCL, 1), Drive(SCL, 0)]);
    }

    /**
     * Bookkeeping of a byte stream being sent: the lines so far are `prefix`
     * followed by the first `sent` bytes of `stream`, and one sample of q was
     * taken per byte.
     */
    ghost predicate Sending(prefix: seq<Event>, stream: seq<bv8>, q: seq<bv8>, sent: nat)
      reads this, ops
    {
      && ops != null && sent <= |stream|
      && ops.trace == prefix + WriteBytesTrace(cfg.order, stream, q, sent)
      && ops.replies == Drop(q, sent)
    }

    /** `SOFT_I2C_ACK != write_byte(si, b, ...)`: sends the next byte of the stream and reports its acknowledge. */
    method Send(b: bv8, ghost prefix: seq<Event>, ghost stream: seq<bv8>, ghost q: seq<bv8>, ghost sent: nat) returns (acked: bool)
      requires Valid() && Sending(prefix, stream, q, sent) && sent < |stream| && stream[sent] == b
      modifies ops
      ensures Sending(prefix, stream, q, sent + 1)
      ensures acked <==> SampleAt(q, sent) == ACK
      ensures acked && AckedUpTo(q, sent) ==> AckedUpTo(q, sent + 1)
    {
      var ack := WriteByte(b);
      SendFacts(q, sent);
      Assoc(prefix, WriteBytesTrace(cfg.order, stream, q, sent), WriteByteTrace(cfg.order, b, SampleAt(q, sent)));
      acked := ack == ACK;
    }

    /**
     * Sends the bytes of `frame` in turn, stopping after the first one not
     * acknowledged: the device-address and register-address steps, whose
     * bytes AddressFrame and RegisterFrame compute.
     */
    method SendFrame(frame: seq<bv8>, ghost prefix: seq<Event>, ghost stream: seq<bv8>, ghost q: seq<bv8>, ghost sent: nat)
      returns (acked: bool, ghost next: nat)
      requires Valid() && Sending(prefix, stream, q, sent) && AckedUpTo(q, sent)
      requires sent + |frame| <= |stream| && forall k :: 0 <= k < |frame| ==> stream[sent + k] == frame[k]
      modifies ops
      ensures sent <= next <= sent + |frame|
      ensures Sending(prefix, stream, q, next)
      ensures acked ==> next == sent + |frame| && AckedUpTo(q, next)
      ensures !acked ==> sent < next && AckedUpTo(q, next - 1) && SampleAt(q, next - 1) != ACK
    {
      var i := 0;
      next := sent;
      while i < |frame|
        invariant 0 <= i <= |frame| && next == sent + i
        invariant Sending(prefix, stream, q, next) && AckedUpTo(q, next)
      {
        acked := Send(frame[i], prefix, stream, q, next);
        next := next + 1;
        if !acked {
          return;
        }
        i := i + 1;
      }
      acked := true;
    }

    /** `read_byte` for the j-th data byte of a reception planned as `acks`, with its sample bookkeeping. */
    method Receive(ack: bv8, ghost prefix: seq<Event>, ghost q: seq<bv8>, ghost acks: seq<bv8>, ghost j: nat) returns (b: bv8)
      requires Valid() && Receiving(prefix, q, acks, j) && j < |acks| && acks[j] == ack
      modifies ops
      ensures Receiving(prefix, q, acks, j + 1)
      ensures b == Assemble(cfg.order, Slice8(q, j))
    {
      b := ReadByte(ack);
      ReceiveFacts(q, j);
      Assoc(prefix, ReadBytesTrace(cfg.order, q, acks, j), ReadByteTrace(Slice8(q, j), ack));
    }

    /**
     * The inner loop of `soft_i2c_write` for one element: its `data_len`
     * bytes, byte i taken from `data[base + WriteIndex(i)]`, stopping after
     * the first one not acknowledged.
     */
    method SendElement(data: array<bv8>, base: nat, ghost prefix: seq<Event>, ghost stream: seq<bv8>, ghost q: seq<bv8>, ghost sent: nat)
      returns (acked: bool, ghost next: nat)
      requires Valid() && Sending(prefix, stream, q, sent) && AckedUpTo(q, sent)
      requires base + Stride(DataLen(cfg)) <= data.Length && sent + DataLen(cfg) <= |stream|
      requires forall i :: 0 <= i < DataLen(cfg) ==>
        stream[sent + i] == data[base + WriteIndex(cfg.mEndian, cfg.sdEndian, DataLen(cfg), i)]
      modifies ops
      ensures sent <= next <= sent + DataLen(cfg)
      ensures Sending(prefix, stream, q, next)
      ensures acked ==> next == sent + DataLen(cfg) && AckedUpTo(q, next)
      ensures !acked ==> sent < next && AckedUpTo(q, next - 1) && SampleAt(q, next - 1) != ACK
    {
      var len := DataLen(cfg);
      var i := 0;
      next := sent;
      while i < len
        invariant 0 <= i <= len && next == sent + i
        invariant Sending(prefix, stream, q, next) && AckedUpTo(q, next)
      {
        acked := Send(data[base + WriteIndex(cfg.mEndian, cfg.sdEndian, len, i)], prefix, stream, q, next);
        next := next + 1;
        if !acked {
          return;
        }
        i := i + 1;
      }
      acked := true;
    }

    /**
     * The outer loop of `soft_i2c_write`: `size` elements from `data + offset`,
     * counting every element whose bytes were all acknowledged.
     */
    method SendElements(data: array<bv8>, offset: nat, size: nat,
                        ghost prefix: seq<Event>, ghost stream: seq<bv8>, ghost q: seq<bv8>, ghost h: nat)
      returns (count: nat, acked: bool, ghost next: nat)
      requires Valid() && (offset + size) * Stride(DataLen(cfg)) <= data.Length
      requires Sending(prefix, stream, q, h) && AckedUpTo(q, h)
      requires h + size * DataLen(cfg) <= |stream|
      requires forall j :: 0 <= j < size * DataLen(cfg) ==> stream[h + j] == DataStream(cfg, data[..], offset, size)[j]
      modifies ops
      ensures Sending(prefix, stream, q, next)
      ensures acked ==> count == size && next == h + size * DataLen(cfg) && AckedUpTo(q, next)
      ensures !acked ==> count < size && h + count * DataLen(cfg) < next <= h + (count + 1) * DataLen(cfg)
      ensures !acked ==> AckedUpTo(q, next - 1) && SampleAt(q, next - 1) != ACK
    {
      var len := DataLen(cfg);
      var stride := Stride(len);
      count := 0;
      next := h;
      while count < size
        invariant count <= size && next == h + count * len
        invariant Sending(prefix, stream, q, next) && AckedUpTo(q, next)
      {
        NextElement(count, len);
        ElementInStream(cfg, data[..], offset, size, stream, h, count);
        acked, next := SendElement(data, (offset + count) * stride, prefix, stream, q, next);
        if !acked {
          return;
        }
        count := count + 1;
      }
      acked := true;
    }

    /**
     * The device-address and register-address steps shared by `soft_i2c_write`
     * and the dummy write of `soft_i2c_read`: both frames in turn, stopping at
     * the first byte not acknowledged.
     */
    method SendHeader(address: bv32, ghost prefix: seq<Event>, ghost stream: seq<bv8>, ghost q: seq<bv8>)
      returns (acked: bool, ghost sent: nat)
      requires Valid() && Sending(prefix, stream, q, 0)
      requires var f := AddressFrame(cfg, WRITE);
        && |f| + AddressLen(cfg) <= |stream|
        && (forall k :: 0 <= k < |f| ==> stream[k] == f[k])
        && (forall k :: 0 <= k < AddressLen(cfg) ==> stream[|f| + k] == RegisterFrame(cfg, address)[k])
      modifies ops
      ensures Sending(prefix, stream, q, sent)
      ensures acked ==> sent == |AddressFrame(cfg, WRITE)| + AddressLen(cfg) && AckedUpTo(q, sent)
      ensures !acked ==> 0 < sent <= |AddressFrame(cfg, WRITE)| + AddressLen(cfg)
      ensures !acked ==> AckedUpTo(q, sent - 1) && SampleAt(q, sent - 1) != ACK
    {
      acked, sent := SendFrame(AddressFrame(cfg, WRITE), prefix, stream, q, 0);
      if acked {
        acked, sent := SendFrame(RegisterFrame(cfg, address), prefix, stream, q, sent);
      }
    }

    /**
     * The body of `soft_i2c_write` between START and STOP: the device
     * address, the register address and the elements, stopping at the first
     * byte not acknowledged. `stream` holds every byte the write offers.
     */
    method SendWrite(address: bv32, data: array?<bv8>, offset: nat, size: nat,
                     ghost prefix: seq<Event>, ghost stream: seq<bv8>, ghost q: seq<bv8>)
      returns (count: nat, ghost sent: nat)
      requires Valid() && Sending(prefix, stream, q, 0)
      requires var f := AddressFrame(cfg, WRITE); var h := |f| + AddressLen(cfg);
        && |stream| == h + (if data == null then 0 else size * DataLen(cfg))
        && (forall k :: 0 <= k < |f| ==> stream[k] == f[k])
        && (forall k :: 0 <= k < AddressLen(cfg) ==> stream[|f| + k] == RegisterFrame(cfg, address)[k])
        && (data != null ==> (offset + size) * Stride(DataLen(cfg)) <= data.Length)
        && (data != null ==> forall j :: 0 <= j < size * DataLen(cfg) ==> stream[h + j] == DataStream(cfg, data[..], offset, size)[j])
      modifies ops
      ensures Sending(prefix, stream, q, sent) && sent == SentCount(q, |stream|)
      ensures count == WriteCount(cfg, data != null, size, q)
    {
      var acked;
      count := 0;
      acked, sent := SendHeader(address, prefix, stream, q);
      if !acked {
        HeaderNackOutcome(cfg, data != null, size, q, |stream|, sent);
        return;
      }
      if data == null {
        SentCountAllAcked(q, |stream|);
        return;
      }
      count, acked, sent := SendElements(data, offset, size, prefix, stream, q, sent);
      ElementsOutcome(cfg, size, q, |AddressFrame(cfg, WRITE)| + AddressLen(cfg), count, sent, acked);
    }

    /**
     * `soft_i2c_write`: START, the device address, the register address and
     * `size` elements from `data + offset`, stopping at the first byte not
     * acknowledged, then STOP; returns the number of elements acknowledged.
     */
    method Write(address: bv32, data: array?<bv8>, offset: nat, size: nat) returns (count: nat)
      requires Valid()
      requires data != null ==> (offset + size) * Stride(DataLen(cfg)) <= data.Length
      modifies ops
      ensures var stream := WriteStream(cfg, address, data != null, if data == null then [] else data[..], offset, size);
        && ops.trace == old(ops.trace) + WriteTrace(cfg, stream, old(ops.replies))
        && ops.replies == Drop(old(ops.replies), SentCount(old(ops.replies), |stream|))
      ensures count == WriteCount(cfg, data != null, size, old(ops.replies))
    {
      ghost var q := ops.replies;
      ghost var buf := if data == null then [] else data[..];
      ghost var body := if data == null then [] else DataStream(cfg, buf, offset, size);
      ghost var stream := WriteStream(cfg, address, data != null, buf, offset, size);
      assert stream == WriteHeader(cfg, address) + body;
      HeaderLayout(cfg, address, body);
      Start();
      ghost var prefix := ops.trace;
      ghost var sent;
      count, sent := SendWrite(address, data, offset, size, prefix, stream, q);
      Stop();
      Regroup(old(ops.trace), StartTrace(), WriteBytesTrace(cfg.order, stream, q, sent), StopTrace());
    }

    /**
     * Bookkeeping of the bus side of a read: the first j data bytes were
     * received from the samples q and answered with the acknowledges `acks`.
     */
    ghost predicate Receiving(prefix: seq<Event>, q: seq<bv8>, acks: seq<bv8>, j: nat)
      reads this, ops
    {
      && ops != null && j <= |acks|
      && ops.trace == prefix + ReadBytesTrace(cfg.order, q, acks, j)
      && ops.replies == Drop(q, 8 * j)
    }

    /**
     * One step of the inner loop of `soft_i2c_read`: byte i of element n, the
     * j-th data byte, is received, acknowledged unless it is the last byte of
     * the last element, and stored at `ReadIndex(i)` of the element's slot.
     */
    method ReceiveByte(data: array<bv8>, offset: nat, size: nat, n: nat, i: nat,
                       ghost prefix: seq<Event>, ghost q: seq<bv8>, ghost acks: seq<bv8>, ghost rx: seq<bv8>, ghost buf: seq<bv8>, ghost j: nat)
      requires Valid() && n < size && i < DataLen(cfg) && j == n * DataLen(cfg) + i
      requires acks == AckPlan(size * DataLen(cfg)) && rx == Received(cfg.order, q, size * DataLen(cfg))
      requires Receiving(prefix, q, acks, j) && Stored(cfg, data, buf, offset, size, rx, j)
      modifies ops, data
      ensures Receiving(prefix, q, acks, j + 1) && Stored(cfg, data, buf, offset, size, rx, j + 1)
    {
      var len := DataLen(cfg);
      var ack := if n == size - 1 && i == len - 1 then NACK else ACK;
      var k := (offset + n) * Stride(len) + ReadIndex(cfg.mEndian, cfg.sdEndian, len, i);
      AckPlanAt(size, n, i, len);
      var b := Receive(ack, prefix, q, acks, j);
      assert b == rx[n * len + i];
      Store(cfg, data, k, b, buf, offset, size, rx, n, i);
      assert n * len + i + 1 == j + 1;
    }

    /** The inner loop of `soft_i2c_read` for element n, whose first byte is the j-th data byte. */
    method ReceiveElement(data: array<bv8>, offset: nat, size: nat, n: nat,
                          ghost prefix: seq<Event>, ghost q: seq<bv8>, ghost acks: seq<bv8>, ghost rx: seq<bv8>, ghost buf: seq<bv8>, ghost j: nat)
      requires Valid() && n < size && j == n * DataLen(cfg)
      requires acks == AckPlan(size * DataLen(cfg)) && rx == Received(cfg.order, q, size * DataLen(cfg))
      requires Receiving(prefix, q, acks, j) && Stored(cfg, data, buf, offset, size, rx, j)
      modifies ops, data
      ensures Receiving(prefix, q, acks, j + DataLen(cfg)) && Stored(cfg, data, buf, offset, size, rx, j + DataLen(cfg))
    {
      var len := DataLen(cfg);
      var i := 0;
      ghost var at := j;
      while i < len
        invariant i <= len && at == j + i
        invariant Receiving(prefix, q, acks, at) && Stored(cfg, data, buf, offset, size, rx, at)
      {
        ReceiveByte(data, offset, size, n, i, prefix, q, acks, rx, buf, at);
        at := at + 1;
        i := i + 1;
      }
    }

    /** The outer loop of `soft_i2c_read`: all `size` elements, each counted. */
    method ReceiveElements(data: array<bv8>, offset: nat, size: nat,
                           ghost prefix: seq<Event>, ghost q: seq<bv8>, ghost acks: seq<bv8>, ghost rx: seq<bv8>, ghost buf: seq<bv8>)
      returns (count: nat)
      requires Valid()
      requires acks == AckPlan(size * DataLen(cfg)) && rx == Received(cfg.order, q, size * DataLen(cfg))
      requires Receiving(prefix, q, acks, 0) && Stored(cfg, data, buf, offset, size, rx, 0)
      modifies ops, data
      ensures count == size
      ensures Receiving(prefix, q, acks, size * DataLen(cfg)) && Stored(cfg, data, buf, offset, size, rx, size * DataLen(cfg))
    {
      var len := DataLen(cfg);
      count := 0;
      ghost var at := 0;
      while count < size
        invariant count <= size && at == count * len
        invariant Receiving(prefix, q, acks, at) && Stored(cfg, data, buf, offset, size, rx, at)
      {
        ReceiveElement(data, offset, size, count, prefix, q, acks, rx, buf, at);
        NextElement(count, len);
        at := at + len;
        count := count + 1;
      }
    }

    /**
     * The data loops of `soft_i2c_read` after the address is acknowledged:
     * every byte is received from the samples q, acknowledged but the last,
     * and stored at its slot index.
     */
    method ReadData(data: array<bv8>, offset: nat, size: nat, ghost prefix: seq<Event>, ghost q: seq<bv8>, ghost buf: seq<bv8>)
      returns (count: nat)
      requires Valid() && ops.trace == prefix && ops.replies == q
      requires (offset + size) * Stride(DataLen(cfg)) <= data.Length && data[..] == buf
      modifies ops, data
      ensures count == size
      ensures ops.trace == prefix + ReadBytesTrace(cfg.order, q, AckPlan(size * DataLen(cfg)), size * DataLen(cfg))
      ensures ops.replies == Drop(q, 8 * (size * DataLen(cfg)))
      ensures data[..] == ReadBuffer(buf, cfg, offset, size, Received(cfg.order, q, size * DataLen(cfg)), size * DataLen(cfg))
    {
      ghost var total := size * DataLen(cfg);
      ghost var acks := AckPlan(total);
      ghost var rx := Received(cfg.order, q, total);
      assert prefix + ReadBytesTrace(cfg.order, q, acks, 0) == prefix;
      assert Drop(q, 0) == q;
      assert Stored(cfg, data, buf, offset, size, rx, 0);
      count := ReceiveElements(data, offset, size, prefix, q, acks, rx, buf);
    }

    /**
     * The dummy write of `soft_i2c_read`, when configured: the device address
     * in the write direction and the register address, stopped at the first
     * NACK, and a repeated START once all of them are acknowledged.
     */
    method DummyWrite(address: bv32, ghost prefix: seq<Event>, ghost q: seq<bv8>) returns (acked: bool, ghost sent: nat)
      requires Valid() && ops.trace == prefix && ops.replies == q
      modifies ops
      ensures acked ==> AckedUpTo(q, |DummyFrame(cfg, address)|) && ops.replies == Drop(q, |DummyFrame(cfg, address)|)
      ensures acked ==> ops.trace == prefix + WriteBytesTrace(cfg.order, DummyFrame(cfg, address), q, |DummyFrame(cfg, address)|)
                                     + (if cfg.hasDummyWrite then RestartTrace() else [])
      ensures !acked ==> 0 < sent <= |DummyFrame(cfg, address)| && AckedUpTo(q, sent - 1) && SampleAt(q, sent - 1) != ACK
      ensures !acked ==> ops.trace == prefix + WriteBytesTrace(cfg.order, DummyFrame(cfg, address), q, sent) && ops.replies == Drop(q, sent)
    {
      if !cfg.hasDummyWrite {
        assert prefix + WriteBytesTrace(cfg.order, DummyFrame(cfg, address), q, 0) + [] == prefix;
        assert Drop(q, 0) == q;
        return true, 0;
      }
      acked, sent := SendDummy(address, prefix, q);
      if acked {
        Restart();
      }
    }

    /** The device address in the write direction and the register address, sent as the dummy write. */
    method SendDummy(address: bv32, ghost prefix: seq<Event>, ghost q: seq<bv8>) returns (acked: bool, ghost sent: nat)
      requires Valid() && cfg.hasDummyWrite && ops.trace == prefix && ops.replies == q
      modifies ops
      ensures Sending(prefix, DummyFrame(cfg, address), q, sent)
      ensures acked ==> sent == |DummyFrame(cfg, address)| && AckedUpTo(q, sent)
      ensures !acked ==> 0 < sent <= |DummyFrame(cfg, address)| && AckedUpTo(q, sent - 1) && SampleAt(q, sent - 1) != ACK
    {
      ghost var p := DummyFrame(cfg, address);
      HeaderLayout(cfg, address, []);
      assert WriteHeader(cfg, address) + [] == p;
      assert prefix + WriteBytesTrace(cfg.order, p, q, 0) == prefix;
      assert Drop(q, 0) == q;
      acked, sent := SendHeader(address, prefix, p, q);
    }

    /** The device address in the read direction, stopped at the first NACK. */
    method SendReadAddress(ghost prefix: seq<Event>, ghost q: seq<bv8>) returns (acked: bool, ghost sent: nat)
      requires Valid() && ops.trace == prefix && ops.replies == q
      modifies ops
      ensures sent <= |AddressFrame(cfg, READ)|
      ensures ops.trace == prefix + WriteBytesTrace(cfg.order, AddressFrame(cfg, READ), q, sent) && ops.replies == Drop(q, sent)
      ensures acked ==> sent == |AddressFrame(cfg, READ)| && AckedUpTo(q, sent)
      ensures !acked ==> 0 < sent <= |AddressFrame(cfg, READ)| && AckedUpTo(q, sent - 1) && SampleAt(q, sent - 1) != ACK
    {
      ghost var a := AddressFrame(cfg, READ);
      assert prefix + WriteBytesTrace(cfg.order, a, q, 0) == prefix;
      assert Drop(q, 0) == q;
      acked, sent := SendFrame(AddressFrame(cfg, READ), prefix, a, q, 0);
    }

    /**
     * `soft_i2c_read` between START and STOP: the dummy write and the repeated
     * START when configured, the device address in the read direction and,
     * once it is acknowledged and there is a buffer, every element.
     */
    method ReadAfterStart(address: bv32, data: array?<bv8>, offset: nat, size: nat, ghost prefix: seq<Event>, ghost q: seq<bv8>, ghost buf: seq<bv8>)
      returns (count: nat)
      requires Valid() && ops.trace == prefix && ops.replies == q
      requires data != null ==> (offset + size) * Stride(DataLen(cfg)) <= data.Length && data[..] == buf
      modifies ops, data
      ensures ops.trace == prefix + ReadBody(cfg.order, DummyFrame(cfg, address), cfg.hasDummyWrite, AddressFrame(cfg, READ),
                                             data != null, size * DataLen(cfg), q)
      ensures ops.replies == Drop(q, ReadConsumed(cfg, address, data != null, size, q))
      ensures count == ReadCount(cfg, address, data != null, size, q)
      ensures data != null ==>
        data[..] == if Addressed(cfg, address, q) then ReadBuffer(buf, cfg, offset, size, Received(cfg.order, DataSamples(cfg, address, q), size * DataLen(cfg)), size * DataLen(cfg))
        else buf
    {
      ghost var p := DummyFrame(cfg, address);
      ghost var a := AddressFrame(cfg, READ);
      var acked, sent := DummyWrite(address, prefix, q);
      if !acked {
        ReadAtDummyNack(cfg, address, data != null, size, q, sent, prefix);
        count := 0;
        return;
      }
      ghost var q1 := Drop(q, |p|);
      acked, sent := SendReadAddress(ops.trace, q1);
      if !acked {
        ReadAtAddressNack(cfg, address, data != null, size, q, sent, prefix);
        count := 0;
        return;
      }
      ReadAddressed(cfg, address, data != null, size, q);
      ReadAddressedRest(cfg, address, data != null, size, q);
      ReadAddressedTrace(cfg, address, data != null, size, q, prefix);
      if data == null {
        count := 0;
        assert ops.trace + [] == ops.trace;
        return;
      }
      count := ReadData(data, offset, size, ops.trace, Drop(q1, |a|), buf);
    }

    /**
     * `soft_i2c_read`: START, the optional dummy write and repeated START, the
     * device address in the read direction and, once it is acknowledged and
     * there is a buffer, `size` elements stored from `data + offset`; then
     * STOP. Returns the number of elements read. Bytes are stored at the
     * corrected index `ReadIndex`; outside `ShiftedRead` configurations that
     * is also where the source stores them.
     */
    method Read(address: bv32, data: array?<bv8>, offset: nat, size: nat) returns (count: nat)
      requires Valid()
      requires data != null ==> (offset + size) * Stride(DataLen(cfg)) <= data.Length
      modifies ops, data
      ensures ops.trace == old(ops.trace) + ReadTrace(cfg, address, data != null, size, old(ops.replies))
      ensures ops.replies == Drop(old(ops.replies), ReadConsumed(cfg, address, data != null, size, old(ops.replies)))
      ensures count == ReadCount(cfg, address, data != null, size, old(ops.replies))
      ensures data != null ==>
        data[..] == if Addressed(cfg, address, old(ops.replies))
        then ReadBuffer(old(data[..]), cfg, offset, size,
                        Received(cfg.order, DataSamples(cfg, address, old(ops.replies)), size * DataLen(cfg)), size * DataLen(cfg))
        else old(data[..])
      ensures data != null && !ShiftedRead(cfg) ==>
        data[..] == if Addressed(cfg, address, old(ops.replies))
        then ReadBufferAsWritten(old(data[..]), cfg, offset, size,
                                 Received(cfg.order, DataSamples(cfg, address, old(ops.replies)), size * DataLen(cfg)), size * DataLen(cfg))
        else old(data[..])
    {
      ghost var q := ops.replies;
      ghost var buf := if data == null then [] else data[..];
      Start();
      ghost var prefix := ops.trace;
      count := ReadAfterStart(address, data, offset, size, prefix, q, buf);
      Stop();
      Regroup(old(ops.trace), StartTrace(),
              ReadBody(cfg.order, DummyFrame(cfg, address), cfg.hasDummyWrite, AddressFrame(cfg, READ), data != null, size * DataLen(cfg), q),
              StopTrace());
      if data != null && !ShiftedRead(cfg) {
        ReadBufferAsWrittenAgrees(buf, cfg, offset, size,
                                  Received(cfg.order, DataSamples(cfg, address, q), size * DataLen(cfg)), size * DataLen(cfg));
      }
    }
  }

  /**
   * The end of `soft_i2c_init_ex`: x starts as the clock period in
   * nanoseconds; the routine whose unit suits it is installed if supplied,
   * else the first supplied of ns, us and ms, and x is divided down to its unit.
   */
  method SelectDelay(speed: nat, d: Delays) returns (x: nat, delay: Option<Granularity>)
    requires speed > 0 && d.Any()
    ensures delay == Some(Chosen(PeriodNs(speed), d))
    ensures x == Ticks(PeriodNs(speed), d)
  {
    x := 1000000000 / speed;
    delay := None;
    if x < 1000 {
      if d.ns {
        delay := Some(Ns);
      }
    } else if x < 1000000 {
      if d.us {
        x := x / 1000;
        delay := Some(Us);
      }
    } else {
      if d.ms {
        x := x / 1000000;
        delay := Some(Ms);
      }
    }
    if delay == None {
      if d.ns {
        delay := Some(Ns);
      } else if d.us {
        x := x / 1000;
        delay := Some(Us);
      } else {
        x := x / 1000000;
        delay := Some(Ms);
      }
    }
  }

  /**
   * `soft_i2c_init_ex`: the checks of `InitStatus` in order; on success the
   * pin table, the configuration, a released mutex, the supplied delay
   * routines and the chosen routine with its argument are stored. A failing
   * check leaves the handle as it was.
   */
  method InitEx(si: SoftI2c?, ops: PinOps?, speed: int, xsb: int, mEndian: int, srEndian: int, sdEndian: int,
                hasDummyWrite: int, dAddr: bv16, dAddrSize: int, rAddrSize: int, dataSize: int, d: Delays)
    returns (status: int)
    modifies si
    ensures status == InitStatus(si != null && ops != null && ops.sdaPresent && ops.sclPresent,
                                 speed, xsb, mEndian, srEndian, sdEndian, hasDummyWrite, dAddrSize, rAddrSize, dataSize, d)
    ensures status != 0 && si != null ==> unchanged(si)
    ensures status == 0 ==>
      && si != null && si.Valid() && si.ops == ops && si.delays == d
      && si.cfg == ConfigOf(speed, xsb, mEndian, srEndian, sdEndian, hasDummyWrite, dAddr, dAddrSize, rAddrSize, dataSize)
      && si.mutexCount == 0 && si.mutexHolder == 0
      && si.delay == Some(Chosen(PeriodNs(speed), d)) && si.x == Ticks(PeriodNs(speed), d)
  {
    if si == null || ops == null || !ops.sdaPresent || !ops.sclPresent { return -1; }
    if !IsLegalSpeed(speed) { return -2; }
    if !IsBitOrder(xsb) { return -3; }
    if !IsEndian(mEndian) || !IsEndian(srEndian) || !IsEndian(sdEndian) { return -4; }
    if hasDummyWrite != 0 && hasDummyWrite != 1 { return -5; }
    if !IsDeviceAddressSize(dAddrSize) { return -6; }
    if !IsRegisterAddressSize(rAddrSize) { return -7; }
    if !IsDataSize(dataSize) { return -8; }
    if !d.Any() { return -9; }

    si.ops := ops;
    si.cfg := ConfigOf(speed, xsb, mEndian, srEndian, sdEndian, hasDummyWrite, dAddr, dAddrSize, rAddrSize, dataSize);
    si.mutexCount := 0;
    si.mutexHolder := 0;
    si.delays := d;

    si.x, si.delay := SelectDelay(si.cfg.speed, d);
    return 0;
  }

  /**
   * `soft_i2c_init`: `soft_i2c_init_ex` with MSB-first bits, little-endian
   * master, register address and data, the dummy write on, a 7-bit device
   * address, and 8-bit register addresses and data.
   */
  method Init(si: SoftI2c?, ops: PinOps?, speed: int, dAddr: bv16, d: Delays) returns (status: int)
    modifies si
    ensures status == InitStatus(si != null && ops != null && ops.sdaPresent && ops.sclPresent,
                                 speed, MSB, LITTLE_ENDIAN, LITTLE_ENDIAN, LITTLE_ENDIAN, 1, DEVICE_ADDRESS_SIZE_7, 8, 8, d)
    ensures status != 0 && si != null ==> unchanged(si)
    ensures status == 0 ==>
      && si != null && si.Valid() && si.ops == ops && si.delays == d
      && si.cfg == Config(speed, MsbFirst, Little, Little, Little, true, dAddr & 0x7F, DEVICE_ADDRESS_SIZE_7, 8, 8)
      && si.delay == Some(Chosen(PeriodNs(speed), d)) && si.x == Ticks(PeriodNs(speed), d)
  {
    status := InitEx(si, ops, speed, MSB, LITTLE_ENDIAN, LITTLE_ENDIAN, LITTLE_ENDIAN, 1, dAddr, DEVICE_ADDRESS_SIZE_7, 8, 8, d);
  }
}
