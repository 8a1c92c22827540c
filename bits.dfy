/**
 * Line sequences of the bit-level primitives of src/soft_i2c.c: start,
 * restart and stop conditions, one byte sent with its acknowledge sampled,
 * one byte received with an acknowledge driven. Delays between transitions
 * are not part of the trace. A small interpreter of the master's line levels
 * says which START and STOP conditions a trace generates (section 3.1.4 of
 * NXP UM10204: SDA falling while SCL is high is a START, SDA rising while SCL
 * is high is a STOP).
 */
module Bits {
  import opened SoftI2cHeader
  import opened Bus

  function StartTrace(): seq<Event>
  {
    [Drive(SDA, 1), Drive(SCL, 1), Drive(SDA, 0), Drive(SCL, 0)]
  }

  function RestartTrace(): seq<Event>
  {
    [Drive(SDA, 1), Drive(SCL, 1), Drive(SDA, 0), Drive(SCL, 0)]
  }

  function StopTrace(): seq<Event>
  {
    [Drive(SCL, 0), Drive(SDA, 0), Drive(SCL, 1), Drive(SDA, 1)]
  }

  /** The level of the i-th bit put on SDA for byte b. */
  function BitAt(order: BitOrder, b: bv8, i: nat): Level
    requires i < 8
  {
    if order == MsbFirst then (b >> (7 - i)) & 1 else (b >> i) & 1
  }

  /** The eight data levels of b in wire order. */
  function WireBits(order: BitOrder, b: bv8): (bits: seq<bv8>)
    ensures |bits| == 8
  {
    seq(8, i requires 0 <= i < 8 => BitAt(order, b, i) as bv8)
  }

  /** The first n data bits of b, each set on SDA and clocked by one SCL pulse. */
  function BitFrames(order: BitOrder, b: bv8, n: nat): (r: seq<Event>)
    requires n <= 8
  {
    seq(3 * n, k requires 0 <= k < 3 * n =>
      if k % 3 == 0 then Drive(SDA, BitAt(order, b, k / 3)) else if k % 3 == 1 then Drive(SCL, 1) else Drive(SCL, 0))
  }

  /** One more data bit adds its three events. */
  lemma BitFramesSnoc(order: BitOrder, b: bv8, n: nat)
    requires n < 8
    ensures BitFrames(order, b, n + 1) == BitFrames(order, b, n) + [Drive(SDA, BitAt(order, b, n)), Drive(SCL, 1), Drive(SCL, 0)]
  {
  }

  /** The ninth clock: SDA released and sampled while SCL is high. */
  function AckFrame(sample: bv8): seq<Event>
  {
    [Drive(SDA, 1), Drive(SCL, 1), SampleSda(sample), Drive(SCL, 0)]
  }

  /** What `write_byte` puts on the lines when the acknowledge sample is `sample`. */
  function WriteByteTrace(order: BitOrder, b: bv8, sample: bv8): (r: seq<Event>)
  {
    BitFrames(order, b, 8) + AckFrame(sample)
  }

  /** `write_byte`'s result: only a sample of exactly 0 is an acknowledge. */
  function AckOf(sample: bv8): (ack: bv8)
    ensures ack == ACK || ack == NACK
    ensures ack == ACK <==> sample == 0
  {
    if sample == ACK then ACK else NACK
  }

  /** One step of `read_byte`'s accumulator on an 8-bit variable. */
  function Shift(order: BitOrder, data: bv8, s: bv8): bv8
  {
    if order == MsbFirst then (data << 1) | s else (data >> 1) | (s << 7)
  }

  /** The byte `read_byte` assembles from the samples taken so far. */
  function Assemble(order: BitOrder, s: seq<bv8>): bv8
  {
    if s == [] then 0 else Shift(order, Assemble(order, s[..|s| - 1]), s[|s| - 1])
  }

  /** Clock pulses during which the given samples are taken. */
  function SampleFrames(samples: seq<bv8>): (r: seq<Event>)
  {
    if samples == [] then []
    else SampleFrames(samples[..|samples| - 1]) + [Drive(SCL, 1), SampleSda(samples[|samples| - 1]), Drive(SCL, 0)]
  }

  /** The level `read_byte` drives after the eighth bit. */
  function AckLevel(ack: bv8): Level
  {
    if ack == ACK then 0 else 1
  }

  /** What `read_byte` puts on the lines when it samples `samples` and answers `ack`. */
  function ReadByteTrace(samples: seq<bv8>, ack: bv8): (r: seq<Event>)
  {
    [Drive(SDA, 1)] + SampleFrames(samples) + [Drive(SDA, AckLevel(ack)), Drive(SCL, 1), Drive(SCL, 0)]
  }

  /** The eight samples of the j-th byte received from a reply queue. */
  function Slice8(q: seq<bv8>, j: nat): (s: seq<bv8>)
    ensures |s| == 8
  {
    seq(8, b requires 0 <= b < 8 => SampleAt(q, 8 * j + b))
  }

  lemma AssembleSnoc(order: BitOrder, s: seq<bv8>, i: nat)
    requires i < |s|
    ensures Assemble(order, s[..i + 1]) == Shift(order, Assemble(order, s[..i]), s[i])
  {
    assert s[..i + 1][..i] == s[..i];
  }

  lemma SampleFramesSnoc(s: seq<bv8>, i: nat)
    requires i < |s|
    ensures SampleFrames(s[..i + 1]) == SampleFrames(s[..i]) + [Drive(SCL, 1), SampleSda(s[i]), Drive(SCL, 0)]
  {
    assert s[..i + 1][..i] == s[..i];
  }

  /** Assemble unfolded over eight samples. */
  lemma AssembleEight(order: BitOrder, s: seq<bv8>)
    requires |s| == 8
    ensures Assemble(order, s) ==
      Shift(order, Shift(order, Shift(order, Shift(order, Shift(order, Shift(order, Shift(order,
        Shift(order, 0, s[0]), s[1]), s[2]), s[3]), s[4]), s[5]), s[6]), s[7])
  {
    assert s[..0] == [];
    AssembleSnoc(order, s, 0);
    AssembleSnoc(order, s, 1);
    AssembleSnoc(order, s, 2);
    AssembleSnoc(order, s, 3);
    AssembleSnoc(order, s, 4);
    AssembleSnoc(order, s, 5);
    AssembleSnoc(order, s, 6);
    AssembleSnoc(order, s, 7);
    assert s[..8] == s;
  }

  /** `read_byte` reconstructs the byte `write_byte` sends with the same bit order. */
  lemma AssembleWireBits(order: BitOrder, b: bv8)
    ensures Assemble(order, WireBits(order, b)) == b
  {
    AssembleEight(order, WireBits(order, b));
  }

  /** Conversely, eight 0/1 samples are exactly the wire bits of the byte assembled from them. */
  lemma WireBitsAssemble(order: BitOrder, s: seq<bv8>)
    requires |s| == 8
    requires forall i :: 0 <= i < 8 ==> s[i] <= 1
    ensures WireBits(order, Assemble(order, s)) == s
  {
    AssembleEight(order, s);
    var a := Assemble(order, s);
    var w := WireBits(order, a);
    assert s[0] <= 1 && s[1] <= 1 && s[2] <= 1 && s[3] <= 1;
    assert s[4] <= 1 && s[5] <= 1 && s[6] <= 1 && s[7] <= 1;
    assert w[0] == s[0] && w[1] == s[1] && w[2] == s[2] && w[3] == s[3];
    assert w[4] == s[4] && w[5] == s[5] && w[6] == s[6] && w[7] == s[7];
  }

  /**
   * LSB-first sends the bits of MSB-first in reverse, and each order's
   * reconstruction gives back the same byte.
   */
  lemma BitOrderReversal(b: bv8)
    ensures forall i :: 0 <= i < 8 ==> WireBits(LsbFirst, b)[i] == WireBits(MsbFirst, b)[7 - i]
    ensures Assemble(LsbFirst, WireBits(LsbFirst, b)) == Assemble(MsbFirst, WireBits(MsbFirst, b))
  {
    AssembleWireBits(LsbFirst, b);
    AssembleWireBits(MsbFirst, b);
  }

  /** Line levels as driven by the master. */
  datatype LineState = LineState(sda: Level, scl: Level)

  const IDLE_LINES := LineState(1, 1)

  datatype Condition = StartCondition | StopCondition

  function Apply(ls: LineState, e: Event): LineState
  {
    match e
    case Drive(SDA, v) => ls.(sda := v)
    case Drive(SCL, v) => ls.(scl := v)
    case SampleSda(_) => ls
  }

  /** The condition an event generates: an SDA edge while SCL is high. */
  function ConditionOf(ls: LineState, e: Event): seq<Condition>
  {
    match e
    case Drive(SDA, v) =>
      if ls.scl == 1 && ls.sda == 1 && v == 0 then [StartCondition]
      else if ls.scl == 1 && ls.sda == 0 && v == 1 then [StopCondition]
      else []
    case _ => []
  }

  function Conditions(ls: LineState, t: seq<Event>): seq<Condition>
    decreases |t|
  {
    if t == [] then [] else ConditionOf(ls, t[0]) + Conditions(Apply(ls, t[0]), t[1..])
  }

  function Final(ls: LineState, t: seq<Event>): LineState
    decreases |t|
  {
    if t == [] then ls else Final(Apply(ls, t[0]), t[1..])
  }

  lemma {:induction false} ConditionsAppend(ls: LineState, a: seq<Event>, b: seq<Event>)
    ensures Conditions(ls, a + b) == Conditions(ls, a) + Conditions(Final(ls, a), b)
    ensures Final(ls, a + b) == Final(Final(ls, a), b)
    decreases |a|
  {
    if a == [] {
      assert a + b == b;
    } else {
      assert (a + b)[0] == a[0];
      assert (a + b)[1..] == a[1..] + b;
      ConditionsAppend(Apply(ls, a[0]), a[1..], b);
    }
  }

  /** Two traces without START or STOP that each end with SCL low make one. */
  lemma QuietAppend(ls: LineState, a: seq<Event>, b: seq<Event>)
    requires Conditions(ls, a) == [] && Final(ls, a).scl == 0
    requires Conditions(Final(ls, a), b) == [] && Final(Final(ls, a), b).scl == 0
    ensures Conditions(ls, a + b) == [] && Final(ls, a + b).scl == 0
  {
    ConditionsAppend(ls, a, b);
  }

  /** One event of a trace, taken from position i. */
  lemma StepAt(ls: LineState, t: seq<Event>, i: nat)
    requires i < |t|
    ensures Conditions(ls, t[i..]) == ConditionOf(ls, t[i]) + Conditions(Apply(ls, t[i]), t[i + 1..])
    ensures Final(ls, t[i..]) == Final(Apply(ls, t[i]), t[i + 1..])
  {
    assert t[i..][0] == t[i];
    assert t[i..][1..] == t[i + 1..];
  }

  /** Conditions and final levels of a trace of three events, event by event. */
  lemma Short3(ls: LineState, t: seq<Event>)
    requires |t| == 3
    ensures Conditions(ls, t) ==
      ConditionOf(ls, t[0]) + ConditionOf(Apply(ls, t[0]), t[1]) + ConditionOf(Apply(Apply(ls, t[0]), t[1]), t[2])
    ensures Final(ls, t) == Apply(Apply(Apply(ls, t[0]), t[1]), t[2])
  {
    var l1 := Apply(ls, t[0]);
    var l2 := Apply(l1, t[1]);
    assert t[0..] == t;
    StepAt(ls, t, 0);
    StepAt(l1, t, 1);
    StepAt(l2, t, 2);
  }

  /** Conditions and final levels of a trace of four events, event by event. */
  lemma Short4(ls: LineState, t: seq<Event>)
    requires |t| == 4
    ensures Conditions(ls, t) == ConditionOf(ls, t[0]) + Conditions(Apply(ls, t[0]), t[1..])
    ensures Final(ls, t) == Final(Apply(ls, t[0]), t[1..])
    ensures |t[1..]| == 3 && t[1..][0] == t[1] && t[1..][1] == t[2] && t[1..][2] == t[3]
  {
    assert t[0..] == t;
    StepAt(ls, t, 0);
  }

  /** Three events that change SDA only while SCL is low, ending with SCL low. */
  lemma QuietTriple(ls: LineState, t: seq<Event>)
    requires ls.scl == 0 && |t| == 3
    requires t[0].Drive? && t[0].line == SDA
    requires t[1] == Drive(SCL, 1) && t[2] == Drive(SCL, 0)
    ensures Conditions(ls, t) == []
    ensures Final(ls, t) == LineState(t[0].level, 0)
  {
    Short3(ls, t);
  }

  /**
   * A START condition from the idle bus or from a low clock (a repeated
   * start), leaving both lines low.
   */
  lemma StartGeneratesStart(ls: LineState)
    requires ls.scl == 0 || ls.sda == 1
    ensures Conditions(ls, StartTrace()) == [StartCondition]
    ensures Final(ls, StartTrace()) == LineState(0, 0)
    ensures RestartTrace() == StartTrace()
  {
    var t := StartTrace();
    Short4(ls, t);
    Short3(Apply(ls, t[0]), t[1..]);
  }

  /** A STOP condition from any line state, leaving the bus idle. */
  lemma StopGeneratesStop(ls: LineState)
    ensures Conditions(ls, StopTrace()) == [StopCondition]
    ensures Final(ls, StopTrace()) == IDLE_LINES
  {
    var t := StopTrace();
    Short4(ls, t);
    Short3(Apply(ls, t[0]), t[1..]);
  }

  /** Data bits change SDA only while SCL is low. */
  lemma {:induction false} BitFramesQuiet(ls: LineState, order: BitOrder, b: bv8, n: nat)
    requires ls.scl == 0 && n <= 8
    ensures Conditions(ls, BitFrames(order, b, n)) == []
    ensures Final(ls, BitFrames(order, b, n)).scl == 0
  {
    if n > 0 {
      BitFramesQuiet(ls, order, b, n - 1);
      var t := [Drive(SDA, BitAt(order, b, n - 1)), Drive(SCL, 1), Drive(SCL, 0)];
      BitFramesSnoc(order, b, n - 1);
      ConditionsAppend(ls, BitFrames(order, b, n - 1), t);
      QuietTriple(Final(ls, BitFrames(order, b, n - 1)), t);
    }
  }

  /** Sending a byte generates no START or STOP and leaves SCL low. */
  lemma WriteByteQuiet(ls: LineState, order: BitOrder, b: bv8, sample: bv8)
    requires ls.scl == 0
    ensures Conditions(ls, WriteByteTrace(order, b, sample)) == []
    ensures Final(ls, WriteByteTrace(order, b, sample)).scl == 0
  {
    BitFramesQuiet(ls, order, b, 8);
    ConditionsAppend(ls, BitFrames(order, b, 8), AckFrame(sample));
    var t := AckFrame(sample);
    var l := Final(ls, BitFrames(order, b, 8));
    Short4(l, t);
    Short3(Apply(l, t[0]), t[1..]);
  }

  lemma {:induction false} SampleFramesQuiet(ls: LineState, samples: seq<bv8>)
    requires ls.scl == 0
    ensures Conditions(ls, SampleFrames(samples)) == []
    ensures Final(ls, SampleFrames(samples)) == ls
  {
    if samples != [] {
      var init := samples[..|samples| - 1];
      SampleFramesQuiet(ls, init);
      var t := [Drive(SCL, 1), SampleSda(samples[|samples| - 1]), Drive(SCL, 0)];
      ConditionsAppend(ls, SampleFrames(init), t);
      Short3(Final(ls, SampleFrames(init)), t);
    }
  }

  /** Receiving a byte generates no START or STOP and leaves SCL low. */
  lemma ReadByteQuiet(ls: LineState, samples: seq<bv8>, ack: bv8)
    requires ls.scl == 0
    ensures Conditions(ls, ReadByteTrace(samples, ack)) == []
    ensures Final(ls, ReadByteTrace(samples, ack)).scl == 0
  {
    var head := [Drive(SDA, 1)];
    var tail := [Drive(SDA, AckLevel(ack)), Drive(SCL, 1), Drive(SCL, 0)];
    var ls1 := Final(ls, head);
    SampleFramesQuiet(ls1, samples);
    ConditionsAppend(ls, head, SampleFrames(samples));
    ConditionsAppend(ls, head + SampleFrames(samples), tail);
    QuietTriple(ls1, tail);
  }
}
