/**
  The saturating times of AK/Time.h and AK/Time.cpp. A time is 64-bit seconds
  and 32-bit nanoseconds below a second; every operation is shown to be exact
  arithmetic on nanoseconds followed by clamping, although no intermediate value
  leaves 64 bits.
*/
module Time {
  import opened Basics

  const I64_MIN := -0x8000_0000_0000_0000
  const I64_MAX := 0x7fff_ffff_ffff_ffff
  const SECOND := 1_000_000_000

  type I64 = x: int | -0x8000_0000_0000_0000 <= x <= 0x7fff_ffff_ffff_ffff
  type I32 = x: int | -0x8000_0000 <= x <= 0x7fff_ffff

  predicate InI64(x: int) { I64_MIN <= x <= I64_MAX }

  function Clamp64(x: int): I64 {
    if x < I64_MIN then I64_MIN else if I64_MAX < x then I64_MAX else x
  }

  function Wrap64(x: int): I64 {
    (x + 0x8000_0000_0000_0000) % 0x1_0000_0000_0000_0000 - 0x8000_0000_0000_0000
  }

  function Wrap32(x: int): I32 {
    (x + 0x8000_0000) % 0x1_0000_0000 - 0x8000_0000
  }

  /** A conversion to 32 bits keeps the value modulo 2^32. */
  lemma Wraps(x: int)
    ensures -0x8000_0000 <= Wrap32(x) <= 0x7fff_ffff && (x - Wrap32(x)) % 0x1_0000_0000 == 0
  {
    var y := x + 0x8000_0000;
    assert x - Wrap32(x) == y / 0x1_0000_0000 * 0x1_0000_0000;
  }

  /** Checked<i64>: the wrapped value and a flag that stays set. */
  datatype Checked = Checked(value: I64, overflow: bool) {
    function Add(other: I64): Checked { Checked(Wrap64(value + other), overflow || !InI64(value + other)) }
    function Sub(other: I64): Checked { Checked(Wrap64(value - other), overflow || !InI64(value - other)) }
    function Mul(other: I64): Checked { Checked(Wrap64(value * other), overflow || !InI64(value * other)) }
  }

  datatype Time = Time(seconds: I64, nanoseconds: nat) {
    predicate Normal() { nanoseconds < SECOND }

    function Nanos(): int { seconds * SECOND + nanoseconds }
  }

  const MIN := Time(I64_MIN, 0)
  const MAX := Time(I64_MAX, 999_999_999)

  /** The normal time nearest to this many nanoseconds. */
  function Nearest(nanos: int): (t: Time)
    ensures t.Normal()
    ensures MIN.Nanos() <= nanos <= MAX.Nanos() ==> t.Nanos() == nanos
    ensures nanos < MIN.Nanos() ==> t == MIN
    ensures MAX.Nanos() < nanos ==> t == MAX
  {
    if nanos < MIN.Nanos() then MIN
    else if MAX.Nanos() < nanos then MAX
    else Time(nanos / SECOND, nanos % SECOND)
  }

  /** Normal times are their nanoseconds. */
  lemma NanosDecide(s: Time, t: Time)
    requires s.Normal() && t.Normal()
    ensures s.Nanos() == t.Nanos() <==> s == t
    ensures Nearest(s.Nanos()) == s
  {
  }

  lemma ExactTime(t: Time, nanos: int)
    requires t.Normal() && t.Nanos() == nanos
    ensures t == Nearest(nanos)
  {
    NanosDecide(t, t);
  }

  // ---------- comparison ----------

  predicate Less(s: Time, t: Time) {
    s.seconds < t.seconds || (s.seconds == t.seconds && s.nanoseconds < t.nanoseconds)
  }

  predicate AtMost(s: Time, t: Time) {
    s.seconds < t.seconds || (s.seconds == t.seconds && s.nanoseconds <= t.nanoseconds)
  }

  predicate Greater(s: Time, t: Time) {
    s.seconds > t.seconds || (s.seconds == t.seconds && s.nanoseconds > t.nanoseconds)
  }

  predicate AtLeast(s: Time, t: Time) {
    s.seconds > t.seconds || (s.seconds == t.seconds && s.nanoseconds >= t.nanoseconds)
  }

  lemma OrderIsNanos(s: Time, t: Time)
    requires s.Normal() && t.Normal()
    ensures Less(s, t) <==> s.Nanos() < t.Nanos()
    ensures AtMost(s, t) <==> s.Nanos() <= t.Nanos()
    ensures Greater(s, t) <==> s.Nanos() > t.Nanos()
    ensures AtLeast(s, t) <==> s.Nanos() >= t.Nanos()
  {
  }

  // ---------- addition and subtraction ----------

  method Add(self: Time, other: Time) returns (r: Time)
    requires self.Normal() && other.Normal()
    ensures r == Nearest(self.Nanos() + other.Nanos())
  {
    var newNsecs := self.nanoseconds + other.nanoseconds;
    var extraSecs := newNsecs / SECOND;
    newNsecs := newNsecs % SECOND;
    var thisSecs: I64, otherSecs: I64 := self.seconds, other.seconds;
    if extraSecs != 0 {
      assert extraSecs == 1;
      if thisSecs != I64_MAX {
        thisSecs := thisSecs + 1;
      } else if otherSecs != I64_MAX {
        otherSecs := otherSecs + 1;
      } else {
        return MAX;
      }
    }
    var newSecs := Checked(thisSecs, false).Add(otherSecs);
    if newSecs.overflow {
      if otherSecs > 0 {
        return MAX;
      } else {
        return MIN;
      }
    }
    ExactTime(Time(newSecs.value, newNsecs), self.Nanos() + other.Nanos());
    return Time(newSecs.value, newNsecs);
  }

  method Subtract(self: Time, other: Time) returns (r: Time)
    requires self.Normal() && other.Normal()
    ensures r == Nearest(self.Nanos() - other.Nanos())
  {
    if other.nanoseconds != 0 {
      r := Add(self, Time(-1 - other.seconds, SECOND - other.nanoseconds));
    } else if other.seconds != I64_MIN {
      r := Add(self, Time(-other.seconds, 0));
    } else if self.seconds >= 0 {
      r := MAX;
    } else {
      var half: I64 := self.seconds + 0x4000_0000_0000_0000;
      r := Time(half + 0x4000_0000_0000_0000, self.nanoseconds);
      ExactTime(r, self.Nanos() - other.Nanos());
    }
  }

  /** Adding and then subtracting the same time gives the first back exactly when the sum was not clamped. */
  method AddThenSubtract(t: Time, d: Time) returns (r: Time)
    requires t.Normal() && d.Normal()
    ensures MIN.Nanos() <= t.Nanos() + d.Nanos() <= MAX.Nanos() <==> r == t
  {
    NanosDecide(t, t);
    var sum := Add(t, d);
    r := Subtract(sum, d);
    NanosDecide(r, t);
  }

  // ---------- construction ----------

  function TruncatedQuotient(n: int, d: int): int
    requires 0 < d
  {
    if n >= 0 then n / d else -((-n) / d)
  }

  function TruncatedRemainder(n: int, d: int): int
    requires 0 < d
  {
    n - TruncatedQuotient(n, d) * d
  }

  /** Rounded away from zero. */
  function AwayQuotient(n: int, d: int): int
    requires 0 < d
  {
    if n >= 0 then (n + d - 1) / d else -((-n + d - 1) / d)
  }

  /** Both roundings in terms of the floored quotient q. */
  lemma Roundings(n: int, d: int, q: int, r: int)
    requires 0 < d && n == d * q + r && 0 <= r < d
    ensures q >= 0 ==> TruncatedQuotient(n, d) == q && AwayQuotient(n, d) == q + (if r == 0 then 0 else 1)
    ensures q < 0 ==> TruncatedQuotient(n, d) == q + (if r == 0 then 0 else 1) && AwayQuotient(n, d) == q
  {
    if q >= 0 {
      RoundingsUp(n, d, q, r);
    } else if r == 0 {
      NegativeSign(n, d, q, r);
      assert -n == d * -q;
      RoundingsUp(-n, d, -q, 0);
    } else {
      NegativeSign(n, d, q, r);
      Negated(d, q);
      RoundingsUp(-n, d, -q - 1, d - r);
    }
  }

  lemma Negated(d: int, q: int)
    ensures d * (-q - 1) == -(d * q) - d
  {
  }

  lemma NegativeSign(n: int, d: int, q: int, r: int)
    requires 0 < d && n == d * q + r && 0 <= r < d && q < 0
    ensures n < 0
  {
    assert d * q <= -d;
  }

  lemma RoundingsUp(n: int, d: int, q: int, r: int)
    requires 0 < d && n == d * q + r && 0 <= r < d && 0 <= q
    ensures 0 <= n && n / d == q
    ensures (n + d - 1) / d == q + (if r == 0 then 0 else 1)
  {
    assert 0 <= d * q;
    QuotientIs(n, d, q, r);
    if r == 0 {
      QuotientIs(n + d - 1, d, q, d - 1);
    } else {
      assert d * (q + 1) == d * q + d;
      QuotientIs(n + d - 1, d, q + 1, r - 1);
    }
  }

  lemma QuotientWithin(n: int, d: int, q: int, r: int)
    requires 2 <= d && n == d * q + r && 0 <= r < d
    ensures if n >= 0 then 0 <= q <= n else n <= q < 0
  {
    if q >= 0 {
      Multiplied(d, q);
    } else {
      Multiplied(d, -q - 1);
      Negated(d, q);
    }
  }

  lemma Multiplied(d: int, m: int)
    requires 1 <= d && 0 <= m
    ensures m <= d * m
  {
  }

  lemma TruncatedParts(n: int, d: int, q: int, r: int)
    requires 2 <= d && n == d * q + r && 0 <= r < d
    ensures TruncatedRemainder(n, d) == if q < 0 && r != 0 then r - d else r
    ensures TruncatedQuotient(n, d) == if q < 0 && r != 0 then q + 1 else q
  {
    hide TruncatedQuotient, AwayQuotient;
    Roundings(n, d, q, r);
    assert (q + 1) * d == d * q + d;
  }

  /** The floored quotient, and the remainder in place of the numerator. */
  method SaneMod(n: I64, denominator: I64) returns (dividend: I64, numerator: I64)
    requires 2 <= denominator <= SECOND
    ensures n == denominator * dividend + numerator && 0 <= numerator < denominator
    ensures n < 0 ==> n <= dividend < 0
    ensures n >= 0 ==> 0 <= dividend <= n
  {
    hide TruncatedQuotient, TruncatedRemainder;
    ghost var q, r := n / denominator, n % denominator;
    TruncatedParts(n, denominator, q, r);
    QuotientWithin(n, denominator, q, r);
    dividend := TruncatedQuotient(n, denominator);
    numerator := TruncatedRemainder(n, denominator);
    if numerator < 0 {
      numerator := numerator + denominator;
      dividend := dividend - 1;
    }
  }

  method FromNanoseconds(nanoseconds: I64) returns (t: Time)
    ensures t.Normal() && t.Nanos() == nanoseconds
  {
    var seconds, rest := SaneMod(nanoseconds, 1_000_000_000);
    t := Time(seconds, rest);
  }

  method FromMicroseconds(microseconds: I64) returns (t: Time)
    ensures t.Normal() && t.Nanos() == microseconds * 1_000
  {
    var seconds, rest := SaneMod(microseconds, 1_000_000);
    t := Time(seconds, rest * 1_000);
  }

  method FromMilliseconds(milliseconds: I64) returns (t: Time)
    ensures t.Normal() && t.Nanos() == milliseconds * 1_000_000
  {
    var seconds, rest := SaneMod(milliseconds, 1_000);
    t := Time(seconds, rest * 1_000_000);
  }

  method FromHalfSanitized(seconds: I64, extraSeconds: I32, nanoseconds: nat) returns (t: Time)
    requires nanoseconds < SECOND
    ensures t == Nearest((seconds + extraSeconds) * SECOND + nanoseconds)
  {
    var secs: I64, extra: I32 := seconds, extraSeconds;
    if (secs <= 0 && extra > 0) || (secs >= 0 && extra < 0) {
      secs := secs + extra;
      extra := 0;
    }
    if !InI64(secs + extra) {
      if secs < 0 {
        return MIN;
      } else {
        return MAX;
      }
    }
    t := Time(secs + extra, nanoseconds);
    ExactTime(t, (seconds + extraSeconds) * SECOND + nanoseconds);
  }

  /** `long` nanoseconds are narrowed to 32 bits first. */
  method FromTimespec(sec: I64, nsec: I64) returns (t: Time)
    ensures t == Nearest(sec * SECOND + Wrap32(nsec))
  {
    var nsecs: I64 := Wrap32(nsec);
    var extra, rest := SaneMod(nsecs, 1_000_000_000);
    t := FromHalfSanitized(sec, extra, rest);
  }

  method FromTimeval(sec: I64, usec: I64) returns (t: Time)
    ensures t == Nearest(sec * SECOND + Wrap32(usec) * 1_000)
  {
    var usecs: I64 := Wrap32(usec);
    var extra, rest := SaneMod(usecs, 1_000_000);
    t := FromHalfSanitized(sec, extra, rest * 1_000);
  }

  // ---------- conversion ----------

  lemma WrapInside(x: int)
    requires InI64(x)
    ensures Wrap64(x) == x
  {
  }

  /** The steps shared by the conversions after scaling: add the part of a second, round up, put a dropped second back. */
  function Finish(scaled: Checked, k: I64, part: I64, up: bool, negative: bool): Checked {
    var rounded := if up then scaled.Add(part).Add(1) else scaled.Add(part);
    if negative then rounded.Sub(k) else rounded
  }

  function Scaled(seconds: I64, k: I64, part: I64, up: bool): Checked {
    Finish(Checked(if seconds < 0 then seconds + 1 else seconds, false).Mul(k), k, part, up, seconds < 0)
  }

  function One(p: bool): int { if p then 1 else 0 }

  /** c counted x exactly, or it overflowed and x is beyond that end. */
  predicate Counts(c: Checked, x: int, negative: bool) {
    if InI64(x) then !c.overflow && c.value == x else c.overflow && (negative <==> x < I64_MIN)
  }

  lemma FinishExact(scaled: Checked, product: int, k: I64, part: I64, up: bool, negative: bool)
    requires 1_000 <= k <= SECOND && 0 <= part && part + One(up) <= k
    requires scaled == Checked(Wrap64(product), !InI64(product))
    requires if negative then product <= 0 else 0 <= product
    ensures Counts(Finish(scaled, k, part, up, negative), product + part + One(up) - (if negative then k else 0), negative)
  {
    hide Wrap64;
    var sum := product + part + One(up);
    if InI64(product) {
      WrapInside(product);
      if InI64(product + part) {
        WrapInside(product + part);
        if InI64(sum) {
          WrapInside(sum);
          if InI64(sum - k) {
            WrapInside(sum - k);
          }
        }
      }
    }
  }

  /** Dropping a negative second first keeps every intermediate value in range unless the result is not. */
  lemma ScaledExact(seconds: I64, k: I64, part: I64, up: bool)
    requires 1_000 <= k <= SECOND && 0 <= part && part + One(up) <= k
    ensures Counts(Scaled(seconds, k, part, up), seconds * k + part + One(up), seconds < 0)
  {
    hide Wrap64, Finish, Counts;
    var s: I64 := if seconds < 0 then seconds + 1 else seconds;
    assert seconds < 0 ==> s * k == seconds * k + k && s * k <= 0;
    assert seconds >= 0 ==> 0 <= s * k;
    FinishExact(Checked(s, false).Mul(k), s * k, k, part, up, seconds < 0);
  }

  method ToTruncatedSeconds(t: Time) returns (r: I64)
    requires t.Normal()
    ensures r == TruncatedQuotient(t.Nanos(), SECOND)
  {
    if t.seconds < 0 && t.nanoseconds != 0 {
      return t.seconds + 1;
    }
    return t.seconds;
  }

  method ToSeconds(t: Time) returns (r: I64)
    requires t.Normal()
    ensures r == Clamp64(AwayQuotient(t.Nanos(), SECOND))
  {
    if t.seconds >= 0 && t.nanoseconds != 0 {
      var seconds := Checked(t.seconds, false).Add(1);
      return if seconds.overflow then I64_MAX else seconds.value;
    }
    return t.seconds;
  }

  method ToTruncatedMilliseconds(t: Time) returns (r: I64)
    requires t.Normal()
    ensures r == Clamp64(TruncatedQuotient(t.Nanos(), 1_000_000))
  {
    hide Wrap64, TruncatedQuotient, AwayQuotient;
    var milliseconds := Checked(if t.seconds < 0 then t.seconds + 1 else t.seconds, false);
    milliseconds := milliseconds.Mul(1_000);
    milliseconds := milliseconds.Add(t.nanoseconds / 1_000_000);
    if t.seconds < 0 {
      if t.nanoseconds % 1_000_000 != 0 {
        milliseconds := milliseconds.Add(1);
      }
      milliseconds := milliseconds.Sub(1_000);
    }
    ghost var part, rest := t.nanoseconds / 1_000_000, t.nanoseconds % 1_000_000;
    ScaledExact(t.seconds, 1_000, part, t.seconds < 0 && rest != 0);
    Roundings(t.Nanos(), 1_000_000, t.seconds * 1_000 + part, rest);
    if !milliseconds.overflow {
      return milliseconds.value;
    }
    return if t.seconds < 0 then I64_MIN else I64_MAX;
  }

  method ToTruncatedMicroseconds(t: Time) returns (r: I64)
    requires t.Normal()
    ensures r == Clamp64(TruncatedQuotient(t.Nanos(), 1_000))
  {
    hide Wrap64, TruncatedQuotient, AwayQuotient;
    var microseconds := Checked(if t.seconds < 0 then t.seconds + 1 else t.seconds, false);
    microseconds := microseconds.Mul(1_000_000);
    microseconds := microseconds.Add(t.nanoseconds / 1_000);
    if t.seconds < 0 {
      if t.nanoseconds % 1_000 != 0 {
        microseconds := microseconds.Add(1);
      }
      microseconds := microseconds.Sub(1_000_000);
    }
    ghost var part, rest := t.nanoseconds / 1_000, t.nanoseconds % 1_000;
    ScaledExact(t.seconds, 1_000_000, part, t.seconds < 0 && rest != 0);
    Roundings(t.Nanos(), 1_000, t.seconds * 1_000_000 + part, rest);
    if !microseconds.overflow {
      return microseconds.value;
    }
    return if t.seconds < 0 then I64_MIN else I64_MAX;
  }

  method ToMilliseconds(t: Time) returns (r: I64)
    requires t.Normal()
    ensures r == Clamp64(AwayQuotient(t.Nanos(), 1_000_000))
  {
    hide Wrap64, TruncatedQuotient, AwayQuotient;
    var milliseconds := Checked(if t.seconds < 0 then t.seconds + 1 else t.seconds, false);
    milliseconds := milliseconds.Mul(1_000);
    milliseconds := milliseconds.Add(t.nanoseconds / 1_000_000);
    if t.seconds >= 0 && t.nanoseconds % 1_000_000 != 0 {
      milliseconds := milliseconds.Add(1);
    }
    if t.seconds < 0 {
      milliseconds := milliseconds.Sub(1_000);
    }
    ghost var part, rest := t.nanoseconds / 1_000_000, t.nanoseconds % 1_000_000;
    ScaledExact(t.seconds, 1_000, part, t.seconds >= 0 && rest != 0);
    Roundings(t.Nanos(), 1_000_000, t.seconds * 1_000 + part, rest);
    if !milliseconds.overflow {
      return milliseconds.value;
    }
    return if t.seconds < 0 then I64_MIN else I64_MAX;
  }

  method ToMicroseconds(t: Time) returns (r: I64)
    requires t.Normal()
    ensures r == Clamp64(AwayQuotient(t.Nanos(), 1_000))
  {
    hide Wrap64, TruncatedQuotient, AwayQuotient;
    var microseconds := Checked(if t.seconds < 0 then t.seconds + 1 else t.seconds, false);
    microseconds := microseconds.Mul(1_000_000);
    microseconds := microseconds.Add(t.nanoseconds / 1_000);
    if t.seconds >= 0 && t.nanoseconds % 1_000 != 0 {
      microseconds := microseconds.Add(1);
    }
    if t.seconds < 0 {
      microseconds := microseconds.Sub(1_000_000);
    }
    ghost var part, rest := t.nanoseconds / 1_000, t.nanoseconds % 1_000;
    ScaledExact(t.seconds, 1_000_000, part, t.seconds >= 0 && rest != 0);
    Roundings(t.Nanos(), 1_000, t.seconds * 1_000_000 + part, rest);
    if !microseconds.overflow {
      return microseconds.value;
    }
    return if t.seconds < 0 then I64_MIN else I64_MAX;
  }

  method ToNanoseconds(t: Time) returns (r: I64)
    requires t.Normal()
    ensures r == Clamp64(t.Nanos())
  {
    hide Wrap64;
    var nanoseconds := Checked(if t.seconds < 0 then t.seconds + 1 else t.seconds, false);
    nanoseconds := nanoseconds.Mul(1_000_000_000);
    nanoseconds := nanoseconds.Add(t.nanoseconds);
    if t.seconds < 0 {
      nanoseconds := nanoseconds.Sub(1_000_000_000);
    }
    ScaledExact(t.seconds, 1_000_000_000, t.nanoseconds, false);
    if !nanoseconds.overflow {
      return nanoseconds.value;
    }
    return if t.seconds < 0 then I64_MIN else I64_MAX;
  }

  /** To nanoseconds and back loses nothing exactly when nothing was clamped. */
  method ThroughNanoseconds(t: Time) returns (r: Time)
    requires t.Normal()
    ensures r == t <==> InI64(t.Nanos())
  {
    var nanoseconds := ToNanoseconds(t);
    r := FromNanoseconds(nanoseconds);
    NanosDecide(r, t);
  }
}
