/**
 * Timing derivation of one forwarding worker: the clamped baud rate and
 * bits per character, the time one character takes on the wire, the idle
 * gap that closes a frame, the poll interval, and the idle test that
 * decides whether a frame is complete. All times are integer nanoseconds
 * except the poll interval, which the worker keeps in seconds.
 */
module Timing {

  const NanosPerSecond: int := 1_000_000_000
  /** Baud rates below this are raised to it. */
  const MinBaud: int := 300
  /** Bits per character below this are raised to it. */
  const MinBitsPerChar: int := 9
  /** The flush gap is never shorter than 0.1 ms. */
  const MinFlushGapNs: int := 100_000
  /** The poll interval is never shorter than 0.5 ms. */
  const MinPollIntervalS: real := 0.0005

  /** The timing fields a worker fixes at construction. */
  datatype Params = Params(baud: int, bitsPerChar: int, charTimeNs: int, flushGapNs: int)

  function Max(a: int, b: int): (m: int)
  {
    if a >= b then a else b
  }

  /** Floor division of naturals characterised by its two bounds. */
  lemma FloorDivBounds(n: nat, d: int)
    requires d > 0
    ensures 0 <= n / d
    ensures (n / d) * d <= n < (n / d + 1) * d
  {
  }

  lemma MulMonotone(c: nat, x: int, y: int)
    requires x <= y
    ensures c * x <= c * y
  {
  }

  /**
   * The worker's timing fields for a requested baud rate, bits per
   * character and gap length in characters. The baud rate and the bits
   * per character are clamped from below; the character time is the floor
   * of one second times the bits over the baud rate; the flush gap is that
   * character time times the gap length (at least one character), but never
   * below 0.1 ms. The character time is truncated before the multiply.
   */
  function Derive(baud: int, bitsPerChar: int, gapChars: int): (p: Params)
    ensures p.baud >= MinBaud && (baud >= MinBaud ==> p.baud == baud) && (baud < MinBaud ==> p.baud == MinBaud)
    ensures p.bitsPerChar >= MinBitsPerChar
    ensures bitsPerChar >= MinBitsPerChar ==> p.bitsPerChar == bitsPerChar
    ensures bitsPerChar < MinBitsPerChar ==> p.bitsPerChar == MinBitsPerChar
    ensures 0 <= p.charTimeNs
    ensures p.charTimeNs * p.baud <= NanosPerSecond * p.bitsPerChar < (p.charTimeNs + 1) * p.baud
    ensures p.flushGapNs >= MinFlushGapNs
    ensures gapChars >= 1 ==> p.flushGapNs >= p.charTimeNs * gapChars
    ensures gapChars < 1 ==> p.flushGapNs >= p.charTimeNs
    ensures p.flushGapNs == MinFlushGapNs || p.flushGapNs == p.charTimeNs * Max(gapChars, 1)
  {
    var b := Max(baud, MinBaud);
    var bits := Max(bitsPerChar, MinBitsPerChar);
    FloorDivBounds(NanosPerSecond * bits, b);
    var charTime := NanosPerSecond * bits / b;
    Params(b, bits, charTime, Max(charTime * Max(gapChars, 1), MinFlushGapNs))
  }

  /** A longer gap in characters never gives a shorter flush gap. */
  lemma FlushGapMonotone(baud: int, bitsPerChar: int, gapChars: int, gapChars': int)
    requires gapChars <= gapChars'
    ensures Derive(baud, bitsPerChar, gapChars).flushGapNs <= Derive(baud, bitsPerChar, gapChars').flushGapNs
  {
    var ct := Derive(baud, bitsPerChar, gapChars).charTimeNs;
    assert ct == Derive(baud, bitsPerChar, gapChars').charTimeNs;
    MulMonotone(ct, Max(gapChars, 1), Max(gapChars', 1));
  }

  /** At 9600 baud, 10 bits per character and a 3-character gap. */
  lemma Baud9600Example()
    ensures Derive(9600, 10, 3) == Params(9600, 10, 1_041_666, 3_124_998)
  {
  }

  /**
   * The poll interval in seconds: half a character time, but never below
   * 0.5 ms.
   */
  function PollIntervalSeconds(p: Params): (s: real)
    ensures s >= MinPollIntervalS
    ensures p.charTimeNs >= 1_000_000 ==> s * 2.0 * 1_000_000_000.0 == p.charTimeNs as real
    ensures p.charTimeNs <= 1_000_000 ==> s == MinPollIntervalS
  {
    var half := p.charTimeNs as real / 2.0 / 1_000_000_000.0;
    if half >= MinPollIntervalS then half else MinPollIntervalS
  }

  /**
   * The poll interval in nanoseconds, doubled: the larger of the character
   * time and 1 ms.
   */
  lemma PollIntervalNs(p: Params)
    ensures PollIntervalSeconds(p) * 2_000_000_000.0 == Max(p.charTimeNs, 1_000_000) as real
  {
  }

  /**
   * The idle test of a pending frame: the time since the last received
   * byte has reached one and a half flush gaps, stated on integers.
   */
  predicate FlushDue(nowNs: int, lastRxNs: int, flushGapNs: int)
  {
    2 * (nowNs - lastRxNs) >= 3 * flushGapNs
  }

  /** The integer test is exactly the comparison against 1.5 flush gaps. */
  lemma FlushDueIsOneAndAHalfGaps(nowNs: int, lastRxNs: int, flushGapNs: int)
    ensures FlushDue(nowNs, lastRxNs, flushGapNs) <==> (nowNs - lastRxNs) as real >= flushGapNs as real * 1.5
  {
  }
}
