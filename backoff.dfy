/**
 Backoff interval lengths for a remote server (statistics.go `duration`).

 The source draws a floating-point jitter uniformly from [0.8, 1.4) and waits
 2^count * jitter seconds. Here the jitter is an integer number of thousandths
 in [800, 1400), supplied by the caller, and 2^count * jitter is the number
 of milliseconds that jitter gives in exact arithmetic (the source's
 floating-point rounding can differ from it by one millisecond).
 */
module Backoff {

  /** Go's `uint32`. */
  type Uint32 = x: int | 0 <= x < 0x1_0000_0000

  /** `atomic.Uint32.Inc`: increment with 32-bit wrap-around. */
  function Inc32(x: Uint32): (r: Uint32)
    ensures x < 0xFFFF_FFFF ==> r == x + 1
    ensures x == 0xFFFF_FFFF ==> r == 0
  {
    (x + 1) % 0x1_0000_0000
  }

  /** minJitterMultiplier and maxJitterMultiplier, in thousandths. */
  const MinJitterPerMille: int := 800
  const MaxJitterPerMille: int := 1400

  /** A jitter multiplier in thousandths: 0.8 <= jitter/1000 < 1.4. */
  type Jitter = j: int | MinJitterPerMille <= j < MaxJitterPerMille witness MinJitterPerMille

  function Pow2(k: nat): (r: nat)
    ensures r >= 1
  {
    if k == 0 then 1 else 2 * Pow2(k - 1)
  }

  lemma {:induction false} Pow2Monotone(a: nat, b: nat)
    requires a <= b
    ensures Pow2(a) <= Pow2(b)
  {
    if a < b {
      Pow2Monotone(a, b - 1);
    }
  }

  lemma {:induction false} Pow2Add(a: nat, b: nat)
    ensures Pow2(a + b) == Pow2(a) * Pow2(b)
  {
    if b > 0 {
      Pow2Add(a, b - 1);
    }
  }

  lemma Pow2At32()
    ensures Pow2(32) == 0x1_0000_0000
  {
    assert Pow2(8) == 256;
    Pow2Add(8, 8);
    Pow2Add(16, 16);
  }

  lemma ScaleBounds(p: nat, j: int)
    requires p >= 1 && MinJitterPerMille <= j < MaxJitterPerMille
    ensures MinJitterPerMille * p <= p * j < MaxJitterPerMille * p
  {
  }

  /**
   The length, in milliseconds, of the backoff interval started by the
   count-th consecutive failure: it lies in [0.8 * 2^count, 1.4 * 2^count)
   seconds, and so is always positive.
   */
  function Duration(count: Uint32, jitter: Jitter): (ms: int)
    ensures MinJitterPerMille * Pow2(count) <= ms < MaxJitterPerMille * Pow2(count)
    ensures ms > 0
  {
    ScaleBounds(Pow2(count), jitter);
    Pow2(count) * jitter
  }

  /** Each further failure doubles both ends of the interval a backoff can take. */
  lemma DurationWindowDoubles(count: Uint32, jitter: Jitter)
    requires count < 0xFFFF_FFFF
    ensures 2 * MinJitterPerMille * Pow2(count) <= Duration(count + 1, jitter)
    ensures Duration(count + 1, jitter) < 2 * MaxJitterPerMille * Pow2(count)
  {
  }

  // ---------------------------------------------------------------------
  // The duration as the source computes it, in Go's time.Duration.
  // ---------------------------------------------------------------------

  const TwoTo63: int := 0x8000_0000_0000_0000
  const TwoTo64: int := 0x1_0000_0000_0000_0000
  /** time.Millisecond, in nanoseconds. */
  const NanosPerMilli: int := 1_000_000

  /** Go's int64 arithmetic: the two's-complement value congruent to x. */
  function WrapInt64(x: int): (r: int)
    ensures -TwoTo63 <= r < TwoTo63
    ensures (r - x) % TwoTo64 == 0
    ensures -TwoTo63 <= x < TwoTo63 ==> r == x
  {
    (x + TwoTo63) % TwoTo64 - TwoTo63
  }

  /**
   The millisecond count 2^count * jitter fits in an int64, so that Go's
   float-to-int64 conversion of it is defined, exactly when the count is at
   most 52, or is 53 with a jitter below 1.024.
   */
  lemma MillisInInt64Range(count: Uint32, jitter: Jitter)
    ensures Pow2(count) * jitter < TwoTo63 <==> count <= 52 || (count == 53 && jitter < 1024)
  {
    Pow2At32();
    assert Pow2(20) == 0x10_0000;
    Pow2Add(32, 20);
    assert Pow2(54) == 2 * Pow2(53) == 4 * Pow2(52);
    if count <= 52 {
      Pow2Monotone(count, 52);
      MulMonotone(Pow2(count), Pow2(52), jitter, MaxJitterPerMille);
    } else if count > 53 {
      Pow2Monotone(54, count);
      MulMonotone(Pow2(54), Pow2(count), MinJitterPerMille, jitter);
    }
  }

  /**
   `time.Millisecond * time.Duration(math.Exp2(count)*jitter*1000)`: the
   float product is converted to an int64 count of milliseconds (defined
   while it stays below 2^63, which `MillisInInt64Range` characterises) and
   then multiplied by 10^6 in int64, which wraps.
   */
  function DurationNanosAsWritten(count: Uint32, jitter: Jitter): (ns: int)
    requires count <= 52 || (count == 53 && jitter < 1024)
    ensures -TwoTo63 <= ns < TwoTo63
  {
    WrapInt64(NanosPerMilli * (Pow2(count) * jitter))
  }

  /** Up to count 32 the int64 product does not wrap and matches Duration. */
  lemma AsWrittenExactUpTo32(count: Uint32, jitter: Jitter)
    requires count <= 32
    ensures DurationNanosAsWritten(count, jitter) == NanosPerMilli * Duration(count, jitter)
    ensures DurationNanosAsWritten(count, jitter) > 0
  {
    var p := Pow2(count);
    Pow2Monotone(count, 32);
    Pow2At32();
    MulMonotone(p, 0x1_0000_0000, jitter, MaxJitterPerMille);
    var ms := p * jitter;
    assert 0 < ms <= 0x1_0000_0000 * MaxJitterPerMille;
    var ns := NanosPerMilli * ms;
    assert 0 < ns < TwoTo63;
    assert DurationNanosAsWritten(count, jitter) == WrapInt64(ns);
  }

  lemma MulMonotone(a: nat, b: nat, c: nat, d: nat)
    requires a <= b && c <= d
    ensures a * c <= b * d
  {
    assert a * c <= b * c;
  }

  /**
   At count 34 the product 2^34 * 800 ms = 1.37e19 ns exceeds 2^63 - 1 and
   the as-written duration comes out negative: the backoff would end before
   it started.
   */
  lemma AsWrittenNegativeAt34()
    ensures DurationNanosAsWritten(34, 800) < 0
    ensures Duration(34, 800) > 0
  {
    Pow2At32();
    Pow2Add(32, 2);
  }

  /**
   At count 34 a jitter of 1.3 wraps past 2^64 back to a positive value:
   the as-written backoff is positive but shorter than intended.
   */
  lemma AsWrittenTooShortAt34()
    ensures 0 <= DurationNanosAsWritten(34, 1300) < NanosPerMilli * Duration(34, 1300)
  {
    Pow2At32();
    Pow2Add(32, 2);
  }
}
