/**
 * The transaction message carries 32 bits of its 64-bit send time; the receiver restores the rest
 * from its own clock.
 */
module ShortTimestamp {
  import opened WireBytes
  import opened GoInts

  const HOUR: int := 3_600_000_000_000
  const PERIOD: int := 0x400_0000_0000
  const MASK: int := 0xFFFF_FC00_0000_0000

  /** How far the truncated send time may lie from the receiver's clock, on either side, without loss. */
  const REACH: int := PERIOD - HOUR

  // Bitwise operators on unsigned integers, bit by bit

  function BitAnd(a: nat, b: nat): nat {
    if a == 0 || b == 0 then 0 else a % 2 * (b % 2) + 2 * BitAnd(a / 2, b / 2)
  }

  function BitOr(a: nat, b: nat): nat {
    if a == 0 then b else if b == 0 then a
    else (if a % 2 == 0 && b % 2 == 0 then 0 else 1) + 2 * BitOr(a / 2, b / 2)
  }

  // The codec

  /** The bits that are sent: 32 of them, from the tenth on. The shift of a signed value rounds down. */
  function Shorten(sent: I64): U32 {
    sent / 1024 % TWO_32
  }

  function Merge(short: U32, now: I64): I64 {
    ToInt64(BitOr(short * 1024, BitAnd(ToU64(now), MASK)))
  }

  function Restore(short: U32, now: I64): I64 {
    Correct(Merge(short, now), now)
  }

  /** The overflow and underflow corrections, one after the other. */
  function Correct(merged: I64, now: I64): I64 {
    var lowered := if ToInt64(merged - now) >= HOUR then ToInt64(merged - PERIOD) else merged;
    if ToInt64(now - lowered) >= HOUR then ToInt64(lowered + PERIOD) else lowered
  }

  method PackTimestamp(buf: array<Byte>, offset: nat, sent: I64)
    requires offset + 4 <= buf.Length
    modifies buf
    ensures buf[offset..offset + 4] == PutLE32(Shorten(sent))
    ensures buf[..offset] == old(buf[..offset]) && buf[offset + 4..] == old(buf[offset + 4..])
  {
    var timestamp := sent / 1024;
    CopyInto(buf, offset, PutLE32(timestamp % TWO_32));
  }

  method UnpackTimestamp(buf: Bytes, offset: nat, now: I64) returns (result: I64)
    requires offset + 4 <= |buf|
    ensures result == Restore(GetLE32(buf[offset..]), now)
  {
    var timestamp: int := GetLE32(buf[offset..]);
    var toMerge := timestamp * 1024;
    var nanoseconds := BitOr(toMerge, BitAnd(ToU64(now), MASK));
    result := ToInt64(nanoseconds);
    if ToInt64(result - now) >= HOUR {
      result := ToInt64(result - PERIOD);
    }
    if ToInt64(now - result) >= HOUR {
      result := ToInt64(result + PERIOD);
    }
  }

  // Shift, mask and merge as arithmetic

  function ShiftLeft(x: nat, k: nat): nat {
    if k == 0 then x else 2 * ShiftLeft(x, k - 1)
  }

  function ShiftRight(x: nat, k: nat): nat {
    if k == 0 then x else ShiftRight(x / 2, k - 1)
  }

  /** Or of a shifted number and one that fits below it is their sum. */
  lemma {:induction false} OrDisjoint(high: nat, low: nat, k: nat)
    requires low < ShiftLeft(1, k)
    ensures BitOr(ShiftLeft(high, k), low) == ShiftLeft(high, k) + low
    decreases k
  {
    if k > 0 {
      OrDisjoint(high, low / 2, k - 1);
    }
  }

  lemma {:induction false} OrCommutes(a: nat, b: nat)
    ensures BitOr(a, b) == BitOr(b, a)
  {
    if a > 0 && b > 0 {
      OrCommutes(a / 2, b / 2);
    }
  }

  /** Masking with a shifted mask masks what lies above the shift. */
  lemma {:induction false} AndShifted(x: nat, m: nat, k: nat)
    ensures BitAnd(x, ShiftLeft(m, k)) == ShiftLeft(BitAnd(ShiftRight(x, k), m), k)
    decreases k
  {
    if k > 0 {
      AndShifted(x / 2, m, k - 1);
      ShiftedZero(k - 1);
    }
  }

  lemma {:induction false} ShiftedZero(k: nat)
    ensures ShiftLeft(0, k) == 0 && ShiftRight(0, k) == 0
  {
    if k > 0 {
      ShiftedZero(k - 1);
    }
  }

  lemma {:induction false} AndOnes(y: nat, j: nat)
    requires y < ShiftLeft(1, j)
    ensures BitAnd(y, ShiftLeft(1, j) - 1) == y
    decreases j
  {
    if j > 0 && y > 0 {
      AndOnes(y / 2, j - 1);
    }
  }

  lemma {:induction false} ShiftTwice(x: nat, a: nat, b: nat)
    ensures ShiftLeft(ShiftLeft(x, a), b) == ShiftLeft(x, a + b)
    ensures ShiftRight(ShiftRight(x, a), b) == ShiftRight(x, a + b)
    decreases a + b
  {
    if b > 0 {
      ShiftTwice(x, a, b - 1);
    }
    if a > 0 {
      ShiftTwice(x / 2, a - 1, b);
    }
  }

  lemma {:induction false} ShiftLeftScales(x: nat, k: nat)
    ensures ShiftLeft(x, k) == x * ShiftLeft(1, k)
  {
    if k > 0 {
      ShiftLeftScales(x, k - 1);
    }
  }

  /** A right shift is the quotient a left shift undoes. */
  lemma {:induction false} ShiftRightDivides(x: nat, k: nat)
    ensures ShiftLeft(ShiftRight(x, k), k) <= x < ShiftLeft(ShiftRight(x, k) + 1, k)
    decreases k
  {
    if k > 0 {
      ShiftRightDivides(x / 2, k - 1);
    }
  }

  lemma Powers()
    ensures ShiftLeft(1, 42) == PERIOD && ShiftLeft(1, 22) == 0x40_0000
  {
    assert ShiftLeft(1, 4) == 16 && ShiftLeft(1, 7) == 128;
    ShiftTwice(1, 7, 7);
    ShiftTwice(1, 14, 7);
    ShiftTwice(1, 21, 7);
    ShiftTwice(1, 28, 7);
    ShiftTwice(1, 35, 7);
    ShiftLeftScales(0x80, 7);
    ShiftLeftScales(0x4000, 7);
    ShiftLeftScales(0x20_0000, 7);
    ShiftLeftScales(0x1000_0000, 7);
    ShiftLeftScales(0x8_0000_0000, 7);
  }

  lemma ShiftPeriod(x: nat)
    ensures ShiftLeft(x, 42) == PERIOD * x && ShiftRight(x, 42) == x / PERIOD
  {
    Powers();
    ShiftLeftScales(x, 42);
    ShiftRightDivides(x, 42);
    ShiftLeftScales(ShiftRight(x, 42), 42);
    ShiftLeftScales(ShiftRight(x, 42) + 1, 42);
    QuotientUnique(x, PERIOD, ShiftRight(x, 42));
  }

  lemma QuotientUnique(x: nat, d: nat, q: nat)
    requires d > 0 && q * d <= x < (q + 1) * d
    ensures q == x / d
  {
    var r := x / d;
    assert r * d <= x < (r + 1) * d;
    FactorLess(q, r + 1, d);
    FactorLess(r, q + 1, d);
  }

  lemma FactorLess(a: int, b: int, d: int)
    requires d > 0 && a * d < b * d
    ensures a < b
  {
  }

  /** The receiver's high 22 bits, by masking. */
  lemma MaskKeepsHigh(clock: nat)
    requires clock < TWO_64
    ensures BitAnd(clock, MASK) == ShiftLeft(clock / PERIOD, 42)
  {
    Powers();
    ShiftPeriod(0x3F_FFFF);
    ShiftPeriod(clock);
    AndShifted(clock, 0x3F_FFFF, 42);
    AndOnes(clock / PERIOD, 22);
  }

  /** Mask and or as arithmetic on the unsigned clock. */
  lemma MergedBits(short: U32, clock: nat) returns (bits: nat)
    requires clock < TWO_64
    ensures bits == BitOr(short * 1024, BitAnd(clock, MASK)) == PERIOD * (clock / PERIOD) + short * 1024
  {
    bits := BitOr(short * 1024, BitAnd(clock, MASK));
    Powers();
    MaskKeepsHigh(clock);
    OrDisjoint(clock / PERIOD, short * 1024, 42);
    OrCommutes(short * 1024, ShiftLeft(clock / PERIOD, 42));
    ShiftPeriod(clock / PERIOD);
  }

  /** The merge keeps the receiver's high 22 bits and takes the low 42 from the message. */
  lemma MergeIsArithmetic(short: U32, now: I64)
    ensures Merge(short, now) == now - now % PERIOD + short * 1024
  {
    var bits := MergedBits(short, ToU64(now));
    SignedMerge(now, short * 1024, bits);
  }

  lemma QuotientOfPositive(now: I64)
    requires now >= 0
    ensures ToU64(now) == now && ToU64(now) / PERIOD == now / PERIOD < 0x20_0000
  {
  }

  lemma QuotientOfNegative(now: I64)
    requires now < 0
    ensures ToU64(now) == now + TWO_64 && -0x20_0000 <= now / PERIOD < 0
    ensures ToU64(now) / PERIOD == now / PERIOD + 0x40_0000
  {
    var q := now / PERIOD;
    assert PERIOD * q <= now < PERIOD * (q + 1);
    QuotientUnique(now + TWO_64, PERIOD, q + 0x40_0000);
  }

  lemma SignedAgain(i: int)
    requires -TWO_63 <= i < TWO_63
    ensures ToInt64(i) == i && ToInt64(i + TWO_64) == i
  {
  }

  /** Reading the merged bits as a signed number keeps the receiver's sign. */
  lemma SignedMerge(now: I64, low: nat, bits: nat)
    requires low < PERIOD && bits == PERIOD * (ToU64(now) / PERIOD) + low
    ensures ToInt64(bits) == now - now % PERIOD + low
  {
    var q := now / PERIOD;
    assert now - now % PERIOD == PERIOD * q;
    if now >= 0 {
      QuotientOfPositive(now);
    } else {
      QuotientOfNegative(now);
      assert PERIOD * (q + 0x40_0000) == PERIOD * q + TWO_64;
    }
    SignedAgain(PERIOD * q + low);
  }

  // What is recovered

  function Truncated(sent: I64): I64 {
    sent - sent % 1024
  }

  ghost predicate Near(a: int, b: int, bound: int) {
    -bound <= a - b <= bound
  }

  /** How far time a is ahead of clock b, as the code's 64-bit subtraction has it; near the ends it may wrap. */
  function Ahead(a: I64, b: I64): int {
    ToInt64(a - b)
  }

  /** The two corrections without the 64-bit wrap-around. */
  function Corrected(merged: int, now: int): int {
    var lowered := if merged - now >= HOUR then merged - PERIOD else merged;
    if now - lowered >= HOUR then lowered + PERIOD else lowered
  }

  lemma InRange(i: int)
    requires -TWO_63 <= i < TWO_63
    ensures ToInt64(i) == i
  {
  }

  lemma SameWrap(a: int, b: int, wraps: int)
    requires a == b + wraps * TWO_64
    ensures ToInt64(a) == ToInt64(b)
  {
    assert a == TWO_64 * (b / TWO_64 + wraps) + b % TWO_64;
  }

  lemma WrapsOf(i: int) returns (wraps: int)
    ensures ToInt64(i) == i + wraps * TWO_64
  {
    wraps := if i % TWO_64 < TWO_63 then -(i / TWO_64) else -(i / TWO_64) - 1;
  }

  lemma WrapTwice(i: int, more: int)
    ensures ToInt64(ToInt64(i) + more) == ToInt64(i + more)
    ensures ToInt64(ToInt64(i) - more) == ToInt64(i - more)
    ensures ToInt64(more - ToInt64(i)) == ToInt64(more - i)
  {
    var wraps := WrapsOf(i);
    SameWrap(ToInt64(i) - more, i - more, wraps);
    SameWrap(ToInt64(i) + more, i + more, wraps);
    SameWrap(more - ToInt64(i), more - i, -wraps);
  }

  /** For any clock: the corrections on 64 bits are the corrections without bound, wrapped once at the end. */
  lemma CorrectIsCorrected(merged: I64, now: I64)
    requires Near(merged, now, PERIOD - 1)
    ensures Correct(merged, now) == ToInt64(Corrected(merged, now))
  {
    InRange(merged - now);
    InRange(merged);
    var lowered := if merged - now >= HOUR then merged - PERIOD else merged;
    WrapTwice(lowered, now);
    WrapTwice(lowered, PERIOD);
    InRange(now - lowered);
  }

  lemma RestoreIsCorrected(short: U32, now: I64)
    ensures Near(Merge(short, now), now, PERIOD - 1)
    ensures Restore(short, now) == ToInt64(Corrected(Merge(short, now), now))
  {
    MergeIsArithmetic(short, now);
    CorrectIsCorrected(Merge(short, now), now);
  }

  /** Whatever was sent, the restored time is less than an hour away from the receiver's clock. */
  lemma RestoredWithinHour(short: U32, now: I64)
    ensures Near(Ahead(Restore(short, now), now), 0, HOUR - 1)
  {
    RestoreIsCorrected(short, now);
    var corrected := Corrected(Merge(short, now), now);
    WrapTwice(corrected, now);
    InRange(corrected - now);
  }

  /** A time is the corrected merge of its own low bits exactly when it is in reach, or within the hour and the same period. */
  lemma CorrectedIff(t: int, now: int)
    ensures Corrected(now - now % PERIOD + t % PERIOD, now) == t
            <==> Near(t, now, REACH) || (Near(t, now, HOUR - 1) && t / PERIOD == now / PERIOD)
  {
    var periods := now / PERIOD - t / PERIOD;
    assert now - now % PERIOD + t % PERIOD == t + periods * PERIOD;
    if periods >= 2 {
      assert periods * PERIOD >= 2 * PERIOD;
    } else if periods <= -2 {
      assert periods * PERIOD <= -2 * PERIOD;
    }
  }

  lemma WrapKeepsLow(t: I64, now: I64)
    ensures (now + Ahead(t, now)) % PERIOD == t % PERIOD
    ensures ToInt64(now + Ahead(t, now)) == t
  {
    var wraps := (now + Ahead(t, now) - t) / TWO_64;
    assert now + Ahead(t, now) == t + PERIOD * (0x40_0000 * wraps);
  }

  /** Two numbers within the range of a difference and equal modulo 2^64 to the same time are that time's place near the clock. */
  lemma NearestIs(corrected: int, t: I64, now: I64)
    requires Near(corrected, now, HOUR - 1)
    ensures ToInt64(corrected) == t <==> corrected == now + Ahead(t, now)
  {
    WrapKeepsLow(t, now);
    if ToInt64(corrected) == t {
      WrapTwice(corrected, now);
      InRange(corrected - now);
    }
  }

  lemma MergeOfShorten(sent: I64, now: I64)
    ensures Merge(Shorten(sent), now) == now - now % PERIOD + Truncated(sent) % PERIOD
  {
    MergeIsArithmetic(Shorten(sent), now);
    assert Shorten(sent) * 1024 == Truncated(sent) % PERIOD;
  }

  /**
   * For any two clocks: the send time is recovered, to the 1024 ns that are sent, exactly when its
   * truncation is within REACH of the receiver's clock, or within the hour and in the same period.
   */
  lemma ExactIff(sent: I64, now: I64)
    ensures var t, ahead := Truncated(sent), Ahead(Truncated(sent), now);
            Restore(Shorten(sent), now) == t
            <==> Near(ahead, 0, REACH) || (Near(ahead, 0, HOUR - 1) && (now + ahead) / PERIOD == now / PERIOD)
    ensures 0 <= sent - Truncated(sent) < 1024
  {
    var t := Truncated(sent);
    var place := now + Ahead(t, now);
    MergeOfShorten(sent, now);
    RestoreIsCorrected(Shorten(sent), now);
    WrapKeepsLow(t, now);
    CorrectedIff(place, now);
    NearestIs(Corrected(Merge(Shorten(sent), now), now), t, now);
  }

  /** REACH cannot be enlarged: one nanosecond further, either way, a time is lost. */
  lemma ReachIsTight()
    ensures exists sent: I64, now: I64 :: Ahead(Truncated(sent), now) == REACH + 1 && Restore(Shorten(sent), now) != Truncated(sent)
    ensures exists sent: I64, now: I64 :: Ahead(Truncated(sent), now) == -REACH - 1 && Restore(Shorten(sent), now) != Truncated(sent)
  {
    Lost(PERIOD, PERIOD - REACH - 1);
    Lost(PERIOD - 1024, PERIOD - 1024 + REACH + 1);
  }

  lemma Lost(sent: I64, now: I64)
    requires 0 <= sent && sent % 1024 == 0 && 0 <= now && (sent - now == REACH + 1 || now - sent == REACH + 1)
    requires sent / PERIOD != now / PERIOD
    ensures Truncated(sent) == sent && Ahead(sent, now) == sent - now && Restore(Shorten(sent), now) != sent
  {
    InRange(sent - now);
    ExactIff(sent, now);
  }

  /** Through the buffer: four bytes written by the sender, anywhere, restore its time on a receiver in reach. */
  lemma WireRoundTrip(before: Bytes, after: Bytes, sent: I64, now: I64)
    requires Near(Ahead(Truncated(sent), now), 0, 4_398_046_511_104 - 3_600_000_000_000)
    ensures Restore(GetLE32((before + PutLE32(Shorten(sent)) + after)[|before|..]), now) == Truncated(sent)
  {
    assert (before + PutLE32(Shorten(sent)) + after)[|before|..] == PutLE32(Shorten(sent)) + after;
    LE32RoundTrip(Shorten(sent), after);
    ExactIff(sent, now);
  }
}
