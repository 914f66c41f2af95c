/** Decimal rendering of numbers as the pipeline does it: `Number.prototype.toFixed`, its
    partner `parseFloat`, and `String(number)` for values with at most four decimals.
    Numbers are exact reals here; the rounding rule is the one `toFixed` is defined by. */
module Decimal {
  import opened Common
  import Text

  function Pow10(n: nat): (p: nat)
    ensures p >= 1
  {
    if n == 0 then 1 else 10 * Pow10(n - 1)
  }

  function Abs(x: real): real
  {
    if x < 0.0 then -x else x
  }

  predicate IsDigit(c: char)
  {
    '0' <= c <= '9'
  }

  predicate AllDigits(s: string)
  {
    forall i :: 0 <= i < |s| ==> IsDigit(s[i])
  }

  function DigitChar(d: nat): (c: char)
    requires d < 10
    ensures IsDigit(c)
  {
    ('0' as int + d) as char
  }

  function DigitValue(c: char): nat
    requires IsDigit(c)
  {
    c as int - '0' as int
  }

  /** The decimal numeral of `n`, without leading zeros. */
  function Digits(n: nat): (s: string)
    ensures |s| >= 1 && AllDigits(s)
  {
    if n < 10 then [DigitChar(n)] else Digits(n / 10) + [DigitChar(n % 10)]
  }

  /** The value of a string of digits; the empty string counts as 0. */
  function DigitsValue(s: string): nat
    requires AllDigits(s)
  {
    if |s| == 0 then 0 else 10 * DigitsValue(s[..|s| - 1]) + DigitValue(s[|s| - 1])
  }

  /** Reading back a numeral gives the number it was written from. */
  lemma {:induction false} DigitsRoundTrip(n: nat)
    ensures DigitsValue(Digits(n)) == n
  {
    if n >= 10 {
      DigitsRoundTrip(n / 10);
      var s := Digits(n);
      assert s[..|s| - 1] == Digits(n / 10);
    }
  }

  /** Digits written after others shift them by a power of ten. */
  lemma {:induction false} DigitsValueAppend(a: string, b: string)
    requires AllDigits(a) && AllDigits(b)
    ensures AllDigits(a + b)
    ensures DigitsValue(a + b) == DigitsValue(a) * Pow10(|b|) + DigitsValue(b)
  {
    if |b| > 0 {
      var b' := b[..|b| - 1];
      assert (a + b)[..|a + b| - 1] == a + b';
      DigitsValueAppend(a, b');
      var d := DigitValue(b[|b| - 1]);
      assert DigitsValue(a + b) == 10 * DigitsValue(a + b') + d;
      assert DigitsValue(b) == 10 * DigitsValue(b') + d;
      assert Pow10(|b|) == 10 * Pow10(|b'|);
      ShiftDistributes(DigitsValue(a), Pow10(|b'|), DigitsValue(b'), d);
    } else {
      assert a + b == a;
    }
  }

  lemma ShiftDistributes(x: int, p: int, y: int, d: int)
    ensures 10 * (x * p + y) + d == x * (10 * p) + (10 * y + d)
  {
  }

  function Zeros(k: nat): (s: string)
    ensures |s| == k && AllDigits(s)
  {
    seq(k, _ => '0')
  }

  lemma {:induction false} ZerosValue(k: nat)
    ensures DigitsValue(Zeros(k)) == 0
  {
    if k > 0 {
      assert Zeros(k)[..k - 1] == Zeros(k - 1);
      ZerosValue(k - 1);
    }
  }

  /** The integer that `x.toFixed(f)` prints for `|x|`, before the point is placed: the
      integer nearest to `|x| * 10^f`, the larger one on a tie. */
  function ScaledUnits(x: real, f: nat): nat
  {
    var y := Abs(x) * (Pow10(f) as real) + 0.5;
    assert y >= 0.5;
    y.Floor
  }

  /** The scaled units are the integer nearest to `|x| * 10^f`. */
  lemma {:induction false} ScaledUnitsNearest(x: real, f: nat)
    ensures var n := ScaledUnits(x, f);
      (n as real) - 0.5 <= Abs(x) * (Pow10(f) as real) < (n as real) + 0.5
  {
    var y := Abs(x) * (Pow10(f) as real) + 0.5;
    assert ScaledUnits(x, f) == y.Floor;
  }

  /** `m` with a decimal point before its last `f` digits, padded with zeros so that at
      least one digit comes before the point; no point at all when `f` is 0. */
  function PointShift(m: string, f: nat): string
    requires AllDigits(m)
  {
    if f == 0 then m
    else
      var padded := Padded(m, f);
      padded[..|padded| - f] + "." + padded[|padded| - f..]
  }

  /** `m` with zeros in front, so that it has more than `f` digits. */
  function Padded(m: string, f: nat): (padded: string)
    requires AllDigits(m)
    ensures AllDigits(padded) && |padded| > f
  {
    if |m| <= f then Zeros(f + 1 - |m|) + m else m
  }

  /** `x.toFixed(f)` (for |x| below 10^21): a '-' when x is negative, then the nearest
      multiple of 10^-f to |x| with exactly f digits after the point. */
  function ToFixed(x: real, f: nat): string
  {
    (if x < 0.0 then "-" else "") + PointShift(Digits(ScaledUnits(x, f)), f)
  }

  /** The value `parseFloat(x.toFixed(f))` denotes: x rounded to f decimals, half away
      from zero. */
  function Round(x: real, f: nat): real
  {
    var m := ScaledUnits(x, f) as real / Pow10(f) as real;
    if x < 0.0 then -m else m
  }

  /** The rounded value is never further from x than half a unit in the last place, and
      keeps x's sign (or is zero). */
  lemma {:induction false} RoundClose(x: real, f: nat)
    ensures Abs(Round(x, f) - x) * (Pow10(f) as real) <= 0.5
    ensures (x < 0.0 ==> Round(x, f) <= 0.0) && (x >= 0.0 ==> Round(x, f) >= 0.0)
  {
    ScaledUnitsNearest(x, f);
    var p := Pow10(f) as real;
    var n := ScaledUnits(x, f) as real;
    var m := n / p;
    assert m * p == n;
    assert (m - Abs(x)) * p == n - Abs(x) * p;
    if x < 0.0 {
      assert Round(x, f) - x == -(m - Abs(x));
    } else {
      assert Round(x, f) - x == m - Abs(x);
    }
  }

  /** Rounding what is already rounded changes nothing. */
  lemma {:induction false} RoundIdempotent(x: real, f: nat)
    ensures Round(Round(x, f), f) == Round(x, f)
  {
    var p := Pow10(f) as real;
    var n := ScaledUnits(x, f);
    var m := n as real / p;
    assert m * p == n as real;
    assert Abs(Round(x, f)) == m;
    var r := Round(x, f);
    assert Abs(r) * p == n as real;
    ScaledUnitsNearest(r, f);
    var n' := ScaledUnits(r, f);
    assert n' == n;
    assert r < 0.0 ==> r == -m;
    assert r >= 0.0 ==> r == m;
  }

  /** The value of the decimal `a.b`: the numeral `ab` divided by 10 to the number of digits of `b`. */
  function PointValue(a: string, b: string): real
    requires AllDigits(a) && AllDigits(b)
  {
    (DigitsValue(a) * Pow10(|b|) + DigitsValue(b)) as real / Pow10(|b|) as real
  }

  /** Scaling numerator and denominator by ten keeps a quotient. */
  lemma {:induction false} CancelTen(v: int, p: int)
    requires p > 0
    ensures (10 * v) as real / (10 * p) as real == v as real / p as real
  {
    var q := v as real / p as real;
    assert q * p as real == v as real;
    assert q * (10 * p) as real == (10 * v) as real;
  }

  /** A trailing zero after the point does not change the value. */
  lemma {:induction false} PointValueTrailingZero(a: string, b: string)
    requires AllDigits(a) && AllDigits(b)
    ensures AllDigits(b + "0") && PointValue(a, b + "0") == PointValue(a, b)
  {
    assert (b + "0")[..|b|] == b;
    var x, y, p := DigitsValue(a), DigitsValue(b), Pow10(|b|);
    assert DigitsValue(b + "0") == 10 * y;
    assert Pow10(|b + "0"|) == 10 * p;
    assert x * (10 * p) + 10 * y == 10 * (x * p + y);
    CancelTen(x * p + y, p);
  }

  /** `parseFloat` on a plain decimal: digits, optionally a point and more digits, with at
      least one digit in all; `None` stands for NaN. */
  function ParseUnsigned(s: string): Option<real>
  {
    var parts := Text.Split(s, '.');
    if |parts| == 1 && |s| > 0 && AllDigits(s) then
      Some(DigitsValue(s) as real)
    else if |parts| == 2 && AllDigits(parts[0]) && AllDigits(parts[1]) && |parts[0]| + |parts[1]| > 0 then
      Some(PointValue(parts[0], parts[1]))
    else
      None
  }

  /** `parseFloat` on an optionally signed plain decimal. */
  function ParseDecimal(s: string): Option<real>
  {
    if |s| > 0 && s[0] == '-' then
      match ParseUnsigned(s[1..])
      case Some(v) => Some(-v)
      case None => None
    else
      ParseUnsigned(s)
  }

  /** The value of `a.b`, the two halves of a decimal. */
  lemma {:induction false} ParsePoint(a: string, b: string)
    requires AllDigits(a) && AllDigits(b) && |a| + |b| > 0
    ensures ParseUnsigned(a + "." + b) == Some(PointValue(a, b))
  {
    var s := a + "." + b;
    assert '.' !in a && '.' !in b;
    assert Text.Join([a, b], '.') == s by {
      assert [a, b][1..] == [b];
    }
    Text.SplitOfJoin([a, b], '.');
    assert Text.Split(s, '.') == [a, b];
  }

  /** A plain numeral reads back as its value. */
  lemma {:induction false} ParseNumeral(m: string)
    requires |m| > 0 && AllDigits(m)
    ensures ParseUnsigned(m) == Some(DigitsValue(m) as real)
  {
    assert '.' !in m;
    Text.SplitOfJoin([m], '.');
    assert Text.Split(m, '.') == [m];
  }

  /** Zeros written in front of a numeral do not change its value. */
  lemma {:induction false} PaddedValue(m: string, f: nat)
    requires AllDigits(m)
    ensures DigitsValue(Padded(m, f)) == DigitsValue(m)
  {
    if |m| <= f {
      DigitsValueAppend(Zeros(f + 1 - |m|), m);
      ZerosValue(f + 1 - |m|);
    }
  }

  /** The decimal `a.b` is the numeral `ab` divided by 10 to the number of digits of `b`. */
  lemma {:induction false} PointValueOfSplit(a: string, b: string)
    requires AllDigits(a) && AllDigits(b)
    ensures AllDigits(a + b)
    ensures PointValue(a, b) == DigitsValue(a + b) as real / Pow10(|b|) as real
  {
    DigitsValueAppend(a, b);
  }

  /** With no decimals, `toFixed` prints the numeral itself. */
  lemma {:induction false} PointShiftWhole(n: nat)
    ensures ParseUnsigned(PointShift(Digits(n), 0)) == Some(n as real)
  {
    DigitsRoundTrip(n);
    ParseNumeral(Digits(n));
  }

  /** With decimals, the numeral is padded and cut `f` digits from its end, into a whole
      part and a fraction of `f` digits that together keep the numeral's value. */
  lemma {:induction false} PointShiftCut(m: string, f: nat) returns (a: string, b: string)
    requires AllDigits(m) && f > 0
    ensures AllDigits(a) && AllDigits(b) && |a| > 0 && |b| == f
    ensures PointShift(m, f) == a + "." + b
    ensures AllDigits(a + b) && DigitsValue(a + b) == DigitsValue(m)
  {
    var padded := Padded(m, f);
    PaddedValue(m, f);
    var k := |padded| - f;
    a, b := padded[..k], padded[k..];
    assert a + b == padded;
    assert PointShift(m, f) == a + "." + b;
  }

  /** The two parts of the cut read as the numeral over 10^f. */
  lemma {:induction false} PointShiftParts(m: string, f: nat) returns (a: string, b: string)
    requires AllDigits(m) && f > 0
    ensures AllDigits(a) && AllDigits(b) && |a| > 0 && |b| == f
    ensures PointShift(m, f) == a + "." + b
    ensures PointValue(a, b) == DigitsValue(m) as real / Pow10(f) as real
  {
    a, b := PointShiftCut(m, f);
    PointValueOfSplit(a, b);
  }

  /** With decimals, `toFixed`'s digits read back as the numeral over 10^f. */
  lemma {:induction false} PointShiftFraction(n: nat, f: nat)
    requires f > 0
    ensures ParseUnsigned(PointShift(Digits(n), f)) == Some(n as real / Pow10(f) as real)
  {
    DigitsRoundTrip(n);
    var a, b := PointShiftParts(Digits(n), f);
    ParsePoint(a, b);
  }

  /** The unsigned part of `toFixed` reads back as the rounded magnitude. */
  lemma {:induction false} PointShiftValue(n: nat, f: nat)
    ensures ParseUnsigned(PointShift(Digits(n), f)) == Some(n as real / Pow10(f) as real)
  {
    if f == 0 {
      PointShiftWhole(n);
      var p := Pow10(0);
      assert p == 1;
      assert n as real / p as real == n as real;
    } else {
      PointShiftFraction(n, f);
    }
  }

  /** `parseFloat(x.toFixed(f))` is `Round(x, f)`: the rendering keeps exactly the rounded value. */
  lemma {:induction false} ParseToFixed(x: real, f: nat)
    ensures ParseDecimal(ToFixed(x, f)) == Some(Round(x, f))
  {
    var n := ScaledUnits(x, f);
    var body := PointShift(Digits(n), f);
    PointShiftValue(n, f);
    assert body[0] != '-' by {
      if f > 0 {
        var m := Digits(n);
        var padded := Padded(m, f);
        assert padded[0] != '-';
      }
    }
    if x < 0.0 {
      assert ToFixed(x, f)[1..] == body;
    } else {
      assert ToFixed(x, f) == body;
    }
  }

  /** `toFixed` prints `f` digits after the point and consists of a sign, digits and a point only. */
  lemma {:induction false} ToFixedShape(x: real, f: nat)
    ensures var s := ToFixed(x, f);
      |s| > 0 && forall i :: 0 <= i < |s| ==> IsDigit(s[i]) || s[i] == '.' || s[i] == '-'
  {
  }

  /** `x.toFixed(f)` of a present value, and "" for a missing one. */
  function Fixed(x: Option<real>, f: nat): (s: string)
    ensures s == "" <==> x.None?
    ensures forall i :: 0 <= i < |s| ==> IsDigit(s[i]) || s[i] == '.' || s[i] == '-'
  {
    if x.Some? then
      ToFixedShape(x.value, f);
      ToFixed(x.value, f)
    else ""
  }

  /** A present value's `toFixed` text reads back as the value rounded to `f` decimals. */
  lemma {:induction false} FixedValue(x: Option<real>, f: nat)
    requires x.Some?
    ensures ParseDecimal(Fixed(x, f)) == Some(Round(x.value, f))
  {
    ParseToFixed(x.value, f);
  }

  /** Drops the trailing zeros after a decimal point, and the point too when nothing is left after it. */
  function Shorten(s: string): string
  {
    if '.' !in s then s
    else if s[|s| - 1] == '0' then Shorten(s[..|s| - 1])
    else if s[|s| - 1] == '.' then s[..|s| - 1]
    else s
  }

  /** `String(v)`, for NaN and for numbers with at most four decimals (the only ones the
      combined table prints): a '-' for a negative value, then the shortest decimal, which is
      the `toFixed(4)` digits without their trailing zeros. */
  function NumberString(v: Number): string
  {
    match v
    case NaN => "NaN"
    case Finite(x) => (if x < 0.0 then "-" else "") + Shorten(PointShift(Digits(ScaledUnits(x, 4)), 4))
  }

  /** The three ways `Shorten` treats a decimal `a.b`. */
  lemma {:induction false} ShortenCases(a: string, b: string)
    requires AllDigits(a) && AllDigits(b)
    ensures |b| > 0 && b[|b| - 1] == '0' ==> Shorten(a + "." + b) == Shorten(a + "." + b[..|b| - 1])
    ensures |b| == 0 ==> Shorten(a + "." + b) == a
    ensures |b| > 0 && b[|b| - 1] != '0' ==> Shorten(a + "." + b) == a + "." + b
  {
    var s := a + "." + b;
    assert s[|a|] == '.';
    assert '.' in s;
    if |b| > 0 {
      assert s[|s| - 1] == b[|b| - 1] != '.';
      assert s[..|s| - 1] == a + "." + b[..|b| - 1];
    } else {
      assert s[..|s| - 1] == a;
    }
  }

  /** Dropping zeros after the point keeps the value `parseFloat` reads. */
  lemma {:induction false} ShortenKeepsValue(a: string, b: string)
    requires AllDigits(a) && AllDigits(b) && |a| > 0
    ensures ParseUnsigned(Shorten(a + "." + b)) == Some(PointValue(a, b))
    decreases |b|
  {
    ShortenCases(a, b);
    if |b| > 0 && b[|b| - 1] == '0' {
      var b' := b[..|b| - 1];
      assert b == b' + "0";
      ShortenKeepsValue(a, b');
      PointValueTrailingZero(a, b');
    } else if |b| == 0 {
      ParseNumeral(a);
      assert PointValue(a, b) == DigitsValue(a) as real;
    } else {
      ParsePoint(a, b);
    }
  }

  /** The unsigned part of `NumberString` reads back as the magnitude it was printed from. */
  lemma {:induction false} ShortMagnitude(n: nat)
    ensures var body := Shorten(PointShift(Digits(n), 4));
      ParseUnsigned(body) == Some(n as real / Pow10(4) as real) && |body| > 0 && body[0] != '-'
  {
    DigitsRoundTrip(n);
    var a, b := PointShiftParts(Digits(n), 4);
    ShortenKeepsValue(a, b);
    var s := a + "." + b;
    assert s[|a|] == '.' && s[..|a|] == a;
    ShortenPrefix(s, |a|);
  }

  /** The shortest rendering of a value rounded to four decimals reads back as that value. */
  lemma {:induction false} ParseNumberString(x: real)
    ensures ParseDecimal(NumberString(Finite(Round(x, 4)))) == Some(Round(x, 4))
  {
    var r := Round(x, 4);
    RoundIdempotent(x, 4);
    var n := ScaledUnits(r, 4);
    var body := Shorten(PointShift(Digits(n), 4));
    ShortMagnitude(n);
    if r < 0.0 {
      assert NumberString(Finite(r))[1..] == body;
    } else {
      assert NumberString(Finite(r)) == body;
    }
  }

  /** `Shorten` never cuts into the part before the point. */
  lemma {:induction false} ShortenPrefix(s: string, k: nat)
    requires k < |s| && s[k] == '.' && '.' !in s[..k]
    ensures |Shorten(s)| >= k && Shorten(s)[..k] == s[..k]
    decreases |s|
  {
    assert '.' in s;
    if s[|s| - 1] == '0' {
      assert s[..|s| - 1][k] == '.';
      assert s[..|s| - 1][..k] == s[..k];
      ShortenPrefix(s[..|s| - 1], k);
    }
  }

  /** `Shorten` only drops characters. */
  lemma {:induction false} ShortenChars(s: string)
    ensures forall c :: c in Shorten(s) ==> c in s
    decreases |s|
  {
    if '.' in s && s[|s| - 1] == '0' {
      ShortenChars(s[..|s| - 1]);
    }
  }

  /** `String(v)` is "NaN" or consists of digits, a point and a sign only. */
  lemma {:induction false} NumberStringShape(v: Number)
    ensures v.NaN? ==> NumberString(v) == "NaN"
    ensures v.Finite? ==> forall c :: c in NumberString(v) ==> IsDigit(c) || c == '.' || c == '-'
  {
    if v.Finite? {
      var x := v.value;
      var body := PointShift(Digits(ScaledUnits(x, 4)), 4);
      var sign := if x < 0.0 then "-" else "";
      ToFixedShape(x, 4);
      ShortenChars(body);
      assert ToFixed(x, 4) == sign + body;
      assert NumberString(v) == sign + Shorten(body);
      forall c | c in NumberString(v)
        ensures IsDigit(c) || c == '.' || c == '-'
      {
        if c !in sign {
          assert c in Shorten(body);
          assert c in ToFixed(x, 4);
        }
      }
    }
  }

  /** The renderings the combined table and the snapshot matrix give a rate of 0.00015:
      four decimals of the percentage, and two decimals rounded half up. */
  lemma {:induction false} PercentageExamples()
    ensures ToFixed(0.00015 * 100.0, 4) == "0.0150"
    ensures ToFixed(0.00015 * 100.0, 2) == "0.02"
  {
    assert ScaledUnits(0.015, 4) == 150;
    assert Digits(150) == "150" by {
      assert Digits(15) == "15" by { assert Digits(1) == "1"; }
    }
    assert Zeros(2) == "00";
    assert ScaledUnits(0.015, 2) == 2;
    assert Digits(2) == "2";
  }
}
