/**
 * The line capability the engine drives (`struct soft_i2c_pin_ops`), as a
 * simulated two-line bus. Every drive of SDA or SCL and every sample of SDA
 * is appended to a trace; the levels a slave presents at successive SDA
 * samples come from a queue. A sample is 0 or 1, or any other value when the
 * line driver reports a fault.
 */
module Bus {

  /** A level the master drives: 0 pulls the line low, 1 releases it high. */
  type Level = l: bv8 | l <= 1

  datatype Line = SDA | SCL

  datatype Event =
    | Drive(line: Line, level: Level)
    | SampleSda(value: bv8)

  /** With nothing queued, the released SDA line reads high (the pull-up). */
  const IDLE_SAMPLE: bv8 := 1

  /** The level presented at the k-th sample from now. */
  function SampleAt(q: seq<bv8>, k: nat): bv8
  {
    if k < |q| then q[k] else IDLE_SAMPLE
  }

  /** The queue left after k samples. */
  function Drop(q: seq<bv8>, k: nat): (r: seq<bv8>)
    ensures |r| == if k <= |q| then |q| - k else 0
  {
    if k <= |q| then q[k..] else []
  }

  lemma SampleAtDrop(q: seq<bv8>, a: nat, b: nat)
    ensures SampleAt(Drop(q, a), b) == SampleAt(q, a + b)
  {
  }

  lemma DropDrop(q: seq<bv8>, a: nat, b: nat)
    ensures Drop(Drop(q, a), b) == Drop(q, a + b)
  {
  }

  lemma Assoc<T>(a: seq<T>, b: seq<T>, c: seq<T>)
    ensures a + b + c == a + (b + c)
  {
  }

  lemma Regroup<T>(a: seq<T>, b: seq<T>, c: seq<T>, d: seq<T>)
    ensures a + b + c + d == a + (b + c + d)
  {
  }

  lemma Regroup5<T>(a: seq<T>, b: seq<T>, c: seq<T>, d: seq<T>, e: seq<T>)
    ensures a + (b + c + (d + e)) == a + b + c + d + e
  {
    Assoc(b + c, d, e);
    Assoc(a, b + c + d, e);
    Regroup(a, b, c, d);
  }

  /**
   * The pin-operation table together with the bus it drives. `sdaPresent`
   * and `sclPresent` say whether the table's two entries are set.
   */
  class PinOps {
    const sdaPresent: bool
    const sclPresent: bool
    var trace: seq<Event>
    var replies: seq<bv8>

    constructor (sdaPresent: bool, sclPresent: bool, replies: seq<bv8>)
      ensures this.sdaPresent == sdaPresent && this.sclPresent == sclPresent
      ensures trace == [] && this.replies == replies
    {
      this.sdaPresent := sdaPresent;
      this.sclPresent := sclPresent;
      trace := [];
      this.replies := replies;
    }

    /** `sda(0)` / `sda(1)`: drive the data line. */
    method Sda(level: Level)
      requires sdaPresent
      modifies this
      ensures trace == old(trace) + [Drive(SDA, level)]
      ensures replies == old(replies)
    {
      trace := trace + [Drive(SDA, level)];
    }

    /** `scl(0)` / `scl(1)`: drive the clock line. */
    method Scl(level: Level)
      requires sclPresent
      modifies this
      ensures trace == old(trace) + [Drive(SCL, level)]
      ensures replies == old(replies)
    {
      trace := trace + [Drive(SCL, level)];
    }

    /** `sda(2)`: sample the data line; the next queued level is consumed. */
    method ReadSda() returns (v: bv8)
      requires sdaPresent
      modifies this
      ensures v == SampleAt(old(replies), 0)
      ensures replies == Drop(old(replies), 1)
      ensures trace == old(trace) + [SampleSda(v)]
    {
      if replies == [] {
        v := IDLE_SAMPLE;
      } else {
        v := replies[0];
        replies := replies[1..];
      }
      trace := trace + [SampleSda(v)];
    }
  }
}
