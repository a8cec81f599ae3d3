/**
  What the parser of AK/JsonParser.cpp makes of numbers with a decimal point. It
  converts the digits before and after the point to 32-bit integers, and divides
  by a 32-bit product of tens; the rounding of the final sum is not modelled.
*/
module JsonDecimals {
  import opened Basics
  import opened JsonText
  import JsonRoundTrip

  function DecimalText(negative: bool, ds: Text, fs: Text): Text {
    (if negative then [MINUS] else []) + ds + [DOT] + fs
  }

  function Signed(negative: bool, x: real): real {
    if negative then -x else x
  }

  /** The number w.f with d digits after the point. */
  ghost function Fixed(negative: bool, w: nat, f: nat, d: nat): real {
    Signed(negative, w as real + f as real / Pow10(d) as real)
  }

  /** The number the text stands for. */
  ghost function Meant(negative: bool, ds: Text, fs: Text): real
    requires AllDigits(ds) && AllDigits(fs)
  {
    Fixed(negative, Decimal(ds), Decimal(fs), |fs|)
  }

  ghost predicate Holds(v: Json, x: real) {
    v.Double? && v.divider != 0 && v.whole as real + v.fraction as real / v.divider as real == x
  }

  /** The digits before the point fit 32 bits; and those after it are nine at most, not
      behind a negative zero, or else zeroes that the product of tens survives. */
  predicate Fits(negative: bool, w: nat, f: nat, d: nat) {
    && w <= (if negative then -I32_MIN else I32_MAX)
    && if f == 0 then d < 32 else d <= 9 && !(negative && w == 0)
  }

  // ---------- what the parser computes ----------

  function Computed(negative: bool, w: nat, f: nat, d: nat): Outcome<Json> {
    if w > (if negative then -I32_MIN else U32_MAX) || f > U32_MAX then Rejected
    else
      var whole: int := if negative then 0 - w else Narrow(w);
      Ok(Double(whole, if whole < 0 then Narrow(-Narrow(f)) else Narrow(f), Divider(d)))
  }

  lemma {:induction false} BeforeTheDot(s: Text, t: Text)
    requires DOT !in s
    ensures BeforeDot(s + [DOT] + t) == s
  {
    if s == [] {
      assert s + [DOT] + t == [DOT] + t;
    } else {
      assert (s + [DOT] + t)[1..] == s[1..] + [DOT] + t;
      BeforeTheDot(s[1..], t);
    }
  }

  lemma {:induction false} NoDots(s: Text)
    requires DOT !in s
    ensures WithoutDots(s) == s
  {
    if s != [] {
      NoDots(s[1..]);
    }
  }

  lemma Parts(whole: Text, fs: Text)
    requires DOT !in whole && DOT !in fs
    ensures var s := whole + [DOT] + fs;
            DOT in s && BeforeDot(s) == whole && WithoutDots(s[|whole|..]) == fs
  {
    hide BeforeDot;
    var s := whole + [DOT] + fs;
    BeforeTheDot(whole, fs);
    assert s[|whole|] == DOT && s[|whole|..] == [DOT] + fs;
    assert ([DOT] + fs)[1..] == fs;
    NoDots(fs);
  }

  lemma WholeConverts(negative: bool, ds: Text)
    requires ds != [] && AllDigits(ds)
    ensures var whole := (if negative then [MINUS] else []) + ds;
            && DOT !in whole
            && ToUint(whole) == (if negative || Decimal(ds) > U32_MAX then None else Some(Decimal(ds)))
            && ToInt64(whole) == (var n := if negative then 0 - Decimal(ds) else Decimal(ds);
                                  if I64_MIN <= n <= I64_MAX then Some(n) else None)
  {
    hide Decimal;
    var whole := (if negative then [MINUS] else []) + ds;
    if negative {
      assert whole[0] == MINUS && whole[1..] == ds;
      assert !IsDigit(whole[0]);
    } else {
      assert whole == ds;
      assert IsDigit(ds[0]);
    }
  }

  lemma FractionConverts(fs: Text)
    requires fs != [] && AllDigits(fs)
    ensures DOT !in fs && ToUint(fs) == if Decimal(fs) > U32_MAX then None else Some(Decimal(fs))
  {
    hide Decimal;
  }

  lemma DoubleOfDecimal(negative: bool, ds: Text, fs: Text)
    requires ds != [] && fs != [] && AllDigits(ds) && AllDigits(fs)
    ensures DoubleOf((if negative then [MINUS] else []) + ds, fs) == Computed(negative, Decimal(ds), Decimal(fs), |fs|)
  {
    hide Narrow, Divider, Decimal, ToUint, ToInt64, AllDigits;
    WholeConverts(negative, ds);
    FractionConverts(fs);
  }

  lemma NumberOfDecimal(negative: bool, ds: Text, fs: Text)
    requires ds != [] && fs != [] && AllDigits(ds) && AllDigits(fs)
    ensures NumberOf(DecimalText(negative, ds, fs)) == Computed(negative, Decimal(ds), Decimal(fs), |fs|)
  {
    hide DoubleOf, Computed, BeforeDot, WithoutDots, Decimal, AllDigits, ToUint, ToInt64;
    WholeConverts(negative, ds);
    FractionConverts(fs);
    DoubleOfDecimal(negative, ds, fs);
    Parts((if negative then [MINUS] else []) + ds, fs);
  }

  lemma ParseIsNumberOf(s: Text)
    requires s != [] && (forall i :: 0 <= i < |s| ==> IsNumeric(s[i])) && s[0] != DOT
    ensures Parse(s) == NumberOf(s)
  {
    hide NumberOf;
    JsonRoundTrip.PrefixOfRun(s, []);
    assert s + [] == s;
    assert SkipSpace(s) == s;
    assert s[|s|..] == [];
  }

  // ---------- the product of tens ----------

  lemma NextTens(d: nat, v: int, p: nat)
    requires Divider(d) == v && Pow10(d) == p
    ensures Divider(d + 1) == Narrow(10 * v) && Pow10(d + 1) == 10 * p
  {
  }

  lemma TensToNine()
    ensures forall d :: 0 <= d <= 9 ==> Divider(d) == Pow10(d)
    ensures Divider(9) == 1000000000 && Pow10(9) == 1000000000
  {
    assert Divider(0) == 1 && Pow10(0) == 1;
    hide Divider, Pow10;
    NextTens(0, 1, 1);
    NextTens(1, 10, 10);
    NextTens(2, 100, 100);
    NextTens(3, 1000, 1000);
    NextTens(4, 10000, 10000);
    NextTens(5, 100000, 100000);
    NextTens(6, 1000000, 1000000);
    NextTens(7, 10000000, 10000000);
    NextTens(8, 100000000, 100000000);
  }

  /** From ten tens on the product no longer fits. */
  lemma TensToTwenty()
    ensures Divider(10) == 1410065408 && Pow10(10) == 10000000000
    ensures Divider(11) == 1215752192 && Pow10(11) == 100000000000
    ensures Divider(12) == -727379968 && Pow10(12) == 1000000000000
    ensures Divider(13) == 1316134912 && Pow10(13) == 10000000000000
    ensures Divider(14) == 276447232 && Pow10(14) == 100000000000000
    ensures Divider(15) == -1530494976 && Pow10(15) == 1000000000000000
    ensures Divider(16) == 1874919424 && Pow10(16) == 10000000000000000
    ensures Divider(17) == 1569325056 && Pow10(17) == 100000000000000000
    ensures Divider(18) == -1486618624 && Pow10(18) == 1000000000000000000
    ensures Divider(19) == -1981284352 && Pow10(19) == 10000000000000000000
    ensures Divider(20) == 1661992960 && Pow10(20) == 100000000000000000000
  {
    hide Divider, Pow10;
    TensToNine();
    NextTens(9, 1000000000, 1000000000);
    NextTens(10, 1410065408, 10000000000);
    NextTens(11, 1215752192, 100000000000);
    NextTens(12, -727379968, 1000000000000);
    NextTens(13, 1316134912, 10000000000000);
    NextTens(14, 276447232, 100000000000000);
    NextTens(15, -1530494976, 1000000000000000);
    NextTens(16, 1874919424, 10000000000000000);
    NextTens(17, 1569325056, 100000000000000000);
    NextTens(18, -1486618624, 1000000000000000000);
    NextTens(19, -1981284352, 10000000000000000000);
  }

  lemma TensToTheEnd()
    ensures (forall d :: 0 <= d < 32 ==> Divider(d) != 0) && Divider(32) == 0
  {
    hide Divider, Pow10;
    TensToNine();
    TensToTwenty();
    NextTens(20, 1661992960, 100000000000000000000);
    NextTens(21, -559939584, 1000000000000000000000);
    NextTens(22, -1304428544, 10000000000000000000000);
    NextTens(23, -159383552, 100000000000000000000000);
    NextTens(24, -1593835520, 1000000000000000000000000);
    NextTens(25, 1241513984, 10000000000000000000000000);
    NextTens(26, -469762048, 100000000000000000000000000);
    NextTens(27, -402653184, 1000000000000000000000000000);
    NextTens(28, 268435456, 10000000000000000000000000000);
    NextTens(29, -1610612736, 100000000000000000000000000000);
    NextTens(30, 1073741824, 1000000000000000000000000000000);
    NextTens(31, -2147483648, 10000000000000000000000000000000);
  }

  lemma {:induction false} NoTensLeft(d: nat)
    requires d >= 32
    ensures Divider(d) == 0
  {
    if d == 32 {
      TensToTheEnd();
    } else {
      NoTensLeft(d - 1);
    }
  }

  lemma {:induction false} BigPower(d: nat)
    requires d >= 20
    ensures Pow10(d) >= 100000000000000000000
  {
    if d == 20 {
      TensToTwenty();
    } else {
      BigPower(d - 1);
    }
  }

  lemma DividerBounds(d: nat)
    ensures I32_MIN <= Divider(d) <= I32_MAX
  {
  }

  // ---------- when the fraction is right ----------

  function Abs(n: int): nat { if n < 0 then -n else n }

  /** Ten digits or more: a wrapped product of tens never gives the fraction back. */
  lemma ManyDigits(f: nat, n: nat, d: nat)
    requires 0 < f <= U32_MAX && 10 <= d && (n == f || (f > I32_MAX && n == U32_MAX + 1 - f))
    ensures n * Pow10(d) != f * Abs(Divider(d))
  {
    hide Divider, Pow10;
    DividerBounds(d);
    if d >= 20 {
      VeryManyDigits(f, n, d);
    } else {
      TensToTwenty();
    }
  }

  lemma VeryManyDigits(f: nat, n: nat, d: nat)
    requires 0 < f <= U32_MAX && 0 < n && 20 <= d
    ensures n * Pow10(d) > f * Abs(Divider(d))
  {
    hide Divider, Pow10;
    DividerBounds(d);
    BigPower(d);
    Grows(n, Pow10(d));
    Bounded(f, Abs(Divider(d)), U32_MAX + 1, I32_MAX + 1);
  }

  lemma Grows(n: int, p: nat)
    requires n >= 1
    ensures n * p >= p
  {
  }

  lemma Bounded(a: nat, b: nat, c: nat, d: nat)
    requires a <= c && b <= d
    ensures a * b <= c * d
  {
    assert a * b <= c * b <= c * d;
  }

  lemma Magnitude(f: nat)
    requires f <= U32_MAX
    ensures var n := Narrow(f);
            && Abs(Narrow(-n)) == Abs(n)
            && (if f <= I32_MAX then n == f && Narrow(-n) == 0 - f else Abs(n) == U32_MAX + 1 - f)
  {
  }

  lemma Ratios(a: int, b: int, f: int, p: nat)
    requires b != 0 && p != 0
    ensures a as real / b as real == f as real / p as real <==> a * p == f * b
  {
    var x, y, u, v := a as real, b as real, f as real, p as real;
    assert x / y == u / v <==> x * v == u * y by { CrossMultiply(x, y, u, v); }
    assert x * v == (a * p) as real && u * y == (f * b) as real;
  }

  lemma CrossMultiply(x: real, y: real, u: real, v: real)
    requires y != 0.0 && v != 0.0
    ensures x / y == u / v <==> x * v == u * y
  {
    var s, t := x / y, u / v;
    assert s * y == x && t * v == u;
    assert x * v == s * (y * v) && u * y == t * (y * v);
    if s != t {
      assert (s - t) * (y * v) != 0.0;
    }
  }

  function Numerator(negative: bool, w: nat, f: nat): int {
    if negative && w != 0 then Narrow(-Narrow(f)) else Narrow(f)
  }

  function Meaning(negative: bool, f: nat): int {
    if negative then 0 - f else f
  }

  lemma CrossProducts(negative: bool, w: nat, f: nat, d: nat)
    requires f <= U32_MAX && f < Pow10(d)
    ensures Numerator(negative, w, f) * Pow10(d) == Meaning(negative, f) * Divider(d)
       <==> f == 0 || (d <= 9 && !(negative && w == 0))
  {
    hide Divider, Pow10, Narrow;
    Magnitude(f);
    DividerBounds(d);
    if f != 0 {
      if d <= 9 {
        TensToNine();
        SameFactor(Numerator(negative, w, f), Meaning(negative, f), Pow10(d));
      } else {
        ManyDigits(f, Abs(Narrow(f)), d);
        Magnitudes(Numerator(negative, w, f), Pow10(d), Meaning(negative, f), Divider(d));
      }
    }
  }

  lemma SameFactor(a: int, b: int, p: nat)
    requires p != 0
    ensures a * p == b * p <==> a == b
  {
    if a < b {
      Grows(b - a, p);
      assert (b - a) * p == b * p - a * p;
    } else if a > b {
      Grows(a - b, p);
      assert (a - b) * p == a * p - b * p;
    }
  }

  lemma FractionExact(negative: bool, w: nat, f: nat, d: nat)
    requires f <= U32_MAX && f < Pow10(d) && Divider(d) != 0
    ensures Numerator(negative, w, f) as real / Divider(d) as real == Signed(negative, f as real / Pow10(d) as real)
       <==> f == 0 || (d <= 9 && !(negative && w == 0))
  {
    hide Divider, Pow10, Numerator;
    Ratios(Numerator(negative, w, f), Divider(d), Meaning(negative, f), Pow10(d));
    Opposite(f, Pow10(d));
    CrossProducts(negative, w, f, d);
  }

  lemma Opposite(f: int, p: nat)
    requires p != 0
    ensures -(f as real / p as real) == (0 - f) as real / p as real
  {
  }

  lemma Magnitudes(n: int, p: nat, g: int, b: int)
    ensures n * p == g * b ==> Abs(n) * p == Abs(g) * Abs(b)
  {
  }

  lemma TooBig(w: nat, n: int, b: int, x: real)
    requires I32_MAX < w <= U32_MAX && I32_MIN <= n <= I32_MAX && b != 0 && x >= 0.0
    ensures Narrow(w) as real + n as real / b as real != w as real + x
  {
    var q := n as real / b as real;
    assert q <= (I32_MAX + 1) as real by { QuotientBound(n, b); }
    assert Narrow(w) == w - U32_MAX - 1;
  }

  lemma QuotientBound(n: int, b: int)
    requires I32_MIN <= n <= I32_MAX && b != 0
    ensures n as real / b as real <= (I32_MAX + 1) as real
  {
    var q := n as real / b as real;
    assert q * b as real == n as real;
    if b >= 1 {
      assert q <= 0.0 || q * b as real >= q;
    } else {
      assert q <= 0.0 || q * b as real <= -q;
    }
  }

  lemma ComputedExactlyWhen(negative: bool, w: nat, f: nat, d: nat)
    requires f < Pow10(d)
    ensures var r := Computed(negative, w, f, d);
            r.Ok? && Holds(r.value, Fixed(negative, w, f, d)) <==> Fits(negative, w, f, d)
  {
    hide Divider, Pow10, Narrow;
    if Computed(negative, w, f, d).Ok? {
      NarrowBounds(w, f);
      if d >= 32 {
        NoTensLeft(d);
      } else {
        TensToTheEnd();
        if !negative && w > I32_MAX {
          TooBig(w, Computed(negative, w, f, d).value.fraction, Divider(d), f as real / Pow10(d) as real);
        } else {
          FractionExact(negative, w, f, d);
        }
      }
    } else if f > U32_MAX {
      TensToNine();
      DividerBounds(d);
    }
  }

  lemma NarrowBounds(w: nat, f: nat)
    ensures I32_MIN <= Narrow(f) <= I32_MAX && I32_MIN <= Narrow(-Narrow(f)) <= I32_MAX
    ensures w <= I32_MAX ==> Narrow(w) == w
    ensures I32_MAX < w <= U32_MAX ==> Narrow(w) < 0
  {
  }

  lemma {:induction false} DecimalBound(s: Text)
    requires AllDigits(s)
    ensures Decimal(s) < Pow10(|s|)
  {
    if s != [] {
      DecimalBound(s[..|s| - 1]);
    }
  }

  /** A number with a decimal point is read as the number it stands for, up to rounding, exactly when it fits. */
  lemma ReadExactlyWhen(negative: bool, ds: Text, fs: Text)
    requires ds != [] && fs != [] && AllDigits(ds) && AllDigits(fs)
    ensures var r := Parse(DecimalText(negative, ds, fs));
            r.Ok? && Holds(r.value, Meant(negative, ds, fs)) <==> Fits(negative, Decimal(ds), Decimal(fs), |fs|)
  {
    hide Parse, NumberOf, Decimal, Pow10, Holds, Computed, Fits, Fixed;
    NumberOfDecimal(negative, ds, fs);
    ParseIsNumberOf(DecimalText(negative, ds, fs));
    DecimalBound(fs);
    ComputedExactlyWhen(negative, Decimal(ds), Decimal(fs), |fs|);
  }

  function Naughts(k: nat): Text {
    seq(k, _ => 48)
  }

  lemma {:induction false} NaughtsRead(k: nat)
    ensures AllDigits(Naughts(k)) && Decimal(Naughts(k)) == 0
  {
    if k != 0 {
      NaughtsRead(k - 1);
      assert Naughts(k)[..k - 1] == Naughts(k - 1);
    }
  }

  /** -0.5 is read as 0.5, 1.0000000005 as 1 and 5 / 1410065408, and 1.2.3 as 1.23. */
  lemma Misread()
    ensures Parse([MINUS, 48, DOT, 53]) == Ok(Double(0, 5, 10)) && Holds(Double(0, 5, 10), 0.5)
    ensures Parse([49, DOT] + Naughts(9) + [53]) == Ok(Double(1, 5, 1410065408))
    ensures Parse([49, DOT, 50, DOT, 51]) == Ok(Double(1, 23, 100))
  {
    hide Parse, NumberOf, Divider, Decimal, Naughts;
    TensToTwenty();
    SmallNumbers();
    Padded();
    var tiny := Naughts(9) + [53];
    assert DecimalText(true, [48], [53]) == [MINUS, 48, DOT, 53];
    assert DecimalText(false, [49], tiny) == [49, DOT] + Naughts(9) + [53];
    ParseIsNumberOf([MINUS, 48, DOT, 53]);
    ParseIsNumberOf(DecimalText(false, [49], tiny));
    ParseIsNumberOf([49, DOT, 50, DOT, 51]);
    NumberOfDecimal(true, [48], [53]);
    NumberOfDecimal(false, [49], tiny);
    TwoDots();
  }

  lemma Padded()
    ensures var s := Naughts(9) + [53]; |s| == 10 && AllDigits(s) && Decimal(s) == 5
  {
    NaughtsRead(9);
    var s := Naughts(9) + [53];
    assert s[..9] == Naughts(9);
  }

  lemma SmallNumbers()
    ensures Divider(1) == 10 && Divider(2) == 100
    ensures Decimal([48]) == 0 && Decimal([49]) == 1 && Decimal([53]) == 5 && Decimal([50, 51]) == 23
  {
    assert [50, 51][..1] == [50] && [48][..0] == [] && [49][..0] == [] && [53][..0] == [] && [50][..0] == [];
    assert Decimal([50]) == 2;
  }

  lemma TwoDots()
    ensures NumberOf([49, DOT, 50, DOT, 51]) == Ok(Double(1, 23, 100))
  {
    hide Divider, Decimal;
    SmallNumbers();
    var s := [49, DOT, 50, DOT, 51];
    assert s[1..] == [DOT, 50, DOT, 51] && s[1..][1..] == [50, DOT, 51];
    assert BeforeDot(s) == [49];
    assert [50, DOT, 51][1..] == [DOT, 51] && [DOT, 51][1..] == [51];
    assert WithoutDots([51]) == [51];
    assert WithoutDots([DOT, 51]) == [51];
    assert WithoutDots([50, DOT, 51]) == [50, 51];
    assert WithoutDots(s[1..]) == [50, 51];
    assert ToUint([49]) == Some(1) && ToUint([50, 51]) == Some(23);
  }
}
