/** Exact decimals and the two numeric steps of `format_currency`: Python's
    `float()` on a string of ASCII digits and '.', and the `:,.2f` / `:.2f`
    renderings of the resulting value. */
module Numbers {
  import opened Text

  /** The outcome of a conversion that may raise. */
  datatype Option<T> = None | Some(value: T)

  function Pow10(n: nat): (r: nat)
    ensures r >= 1
  {
    if n == 0 then 1 else 10 * Pow10(n - 1)
  }

  lemma {:induction false} Pow10Add(a: nat, b: nat)
    ensures Pow10(a + b) == Pow10(a) * Pow10(b)
  {
    if a > 0 {
      Pow10Add(a - 1, b);
      assert Pow10(a + b) == 10 * Pow10(a - 1 + b);
    }
  }

  lemma {:induction false} Pow10Monotone(a: nat, b: nat)
    requires a <= b
    ensures Pow10(a) <= Pow10(b)
  {
    if a < b {
      Pow10Monotone(a, b - 1);
    }
  }

  function DigitVal(c: char): nat
    requires IsDigit(c)
  {
    c as int - '0' as int
  }

  function DigitChar(n: nat): (c: char)
    requires n < 10
    ensures IsDigit(c) && DigitVal(c) == n
  {
    ('0' as int + n) as char
  }

  predicate AllDigits(s: string) {
    forall i :: 0 <= i < |s| ==> IsDigit(s[i])
  }

  /** The natural number a string of decimal digits denotes (most significant first). */
  function DigitsValue(s: string): nat
    requires AllDigits(s)
  {
    if |s| == 0 then 0 else DigitsValue(s[..|s| - 1]) * 10 + DigitVal(s[|s| - 1])
  }

  lemma {:induction false} DigitsValueAppend(a: string, b: string)
    requires AllDigits(a) && AllDigits(b)
    ensures DigitsValue(a + b) == DigitsValue(a) * Pow10(|b|) + DigitsValue(b)
  {
    if |b| > 0 {
      var b' := b[..|b| - 1];
      assert (a + b)[..|a + b| - 1] == a + b';
      DigitsValueAppend(a, b');
      var x, p, y, z := DigitsValue(a), Pow10(|b'|), DigitsValue(b'), DigitVal(b[|b| - 1]);
      assert (a + b)[|a + b| - 1] == b[|b| - 1];
      assert DigitsValue(b) == y * 10 + z;
      assert Pow10(|b|) == p * 10;
      assert DigitsValue(a + b) == DigitsValue(a + b') * 10 + z;
      Distribute(x, p, y, z);
    } else {
      assert a + b == a;
    }
  }

  lemma Distribute(x: int, p: int, y: int, z: int)
    ensures (x * p + y) * 10 + z == x * (p * 10) + (y * 10 + z)
  {
  }

  /** The canonical decimal digits of `n`: no leading zero, "0" for zero. */
  function NatToDigits(n: nat): (r: string)
    ensures AllDigits(r) && |r| >= 1
    ensures DigitsValue(r) == n
    ensures r[0] == '0' ==> n == 0
    ensures n < Pow10(|r|)
    ensures |r| == 1 || Pow10(|r| - 1) <= n
  {
    if n < 10 then [DigitChar(n)]
    else
      var front := NatToDigits(n / 10);
      var r := front + [DigitChar(n % 10)];
      assert r[..|r| - 1] == front;
      r
  }

  lemma {:induction false} Pow10Order(a: nat, b: nat)
    ensures a <= b <==> Pow10(a) <= Pow10(b)
  {
    if a <= b {
      Pow10Monotone(a, b);
    } else {
      Pow10Monotone(b, a - 1);
    }
  }

  lemma DigitsLengthAtLeast(n: nat, k: nat)
    requires Pow10(k) <= n
    ensures |NatToDigits(n)| > k
  {
    Pow10Order(|NatToDigits(n)|, k);
  }

  lemma DigitsLengthAtMost(n: nat, k: nat)
    requires k >= 1 && n < Pow10(k)
    ensures |NatToDigits(n)| <= k
  {
    var r := NatToDigits(n);
    if |r| > 1 {
      Pow10Order(k, |r| - 1);
    }
  }

  /** The two digits of a cents amount below 100. */
  function TwoDigits(f: nat): (r: string)
    requires f < 100
    ensures |r| == 2 && AllDigits(r)
    ensures DigitsValue(r) == f
  {
    var r := [DigitChar(f / 10), DigitChar(f % 10)];
    assert r[..1] == [DigitChar(f / 10)];
    assert DigitsValue(r[..1]) == f / 10 by {
      assert r[..1][..0] == [];
    }
    r
  }

  lemma DigitsLack(s: string, c: char)
    requires AllDigits(s) && !IsDigit(c)
    ensures Count(s, c) == 0
  {
    CountPositive(s, c);
  }

  /** An exact non-negative decimal number, mantissa / 10^scale. */
  datatype Decimal = Decimal(mantissa: nat, scale: nat)

  predicate DigitsAndDots(s: string) {
    forall i :: 0 <= i < |s| ==> IsDigit(s[i]) || s[i] == '.'
  }

  predicate HasDigit(s: string) {
    exists i :: 0 <= i < |s| && IsDigit(s[i])
  }

  /** Two strings with the same digit counts agree on whether they hold a digit. */
  lemma HasDigitByCount(s: string, t: string)
    requires forall d :: IsDigit(d) ==> Count(s, d) == Count(t, d)
    ensures HasDigit(s) <==> HasDigit(t)
  {
    if HasDigit(s) {
      var i :| 0 <= i < |s| && IsDigit(s[i]);
      CountPositive(s, s[i]);
      CountPositive(t, s[i]);
      var j :| 0 <= j < |t| && t[j] == s[i];
    }
    if HasDigit(t) {
      var i :| 0 <= i < |t| && IsDigit(t[i]);
      CountPositive(t, t[i]);
      CountPositive(s, t[i]);
      var j :| 0 <= j < |s| && s[j] == t[i];
    }
  }

  /** A string in which every character other than digits and '.' has count
      zero is made of digits and '.'. */
  lemma DigitsAndDotsByCount(s: string)
    requires forall c :: !IsDigit(c) && c != '.' ==> Count(s, c) == 0
    ensures DigitsAndDots(s)
  {
    forall i | 0 <= i < |s|
      ensures IsDigit(s[i]) || s[i] == '.'
    {
      CountPositive(s, s[i]);
    }
  }

  /** The first index of `c` in `s`. */
  function Find(s: string, c: char): (r: nat)
    requires c in s
    ensures r < |s| && s[r] == c
    ensures forall j :: 0 <= j < r ==> s[j] != c
  {
    if s[0] == c then 0
    else assert s == [s[0]] + s[1..]; 1 + Find(s[1..], c)
  }

  /** Python's `float(s)` for a string of ASCII digits and '.': it succeeds
      exactly when there is at least one digit and at most one '.', and then
      denotes the digits read as one number, scaled down by the digits after
      the '.'. */
  function FloatOfPlain(s: string): (r: Option<Decimal>)
    requires DigitsAndDots(s)
    ensures r.Some? <==> HasDigit(s) && Count(s, '.') <= 1
  {
    CountPositive(s, '.');
    if '.' !in s then
      if |s| == 0 then None
      else assert IsDigit(s[0]); Some(Decimal(DigitsValue(s), 0))
    else
      var k := Find(s, '.');
      var whole, fraction := s[..k], s[k + 1..];
      assert '.' !in whole;
      assert s == whole + ['.'] + fraction;
      CountAppend(whole + ['.'], fraction, '.');
      CountAppend(whole, ['.'], '.');
      CountPositive(whole, '.');
      CountPositive(fraction, '.');
      if '.' in fraction then None
      else if |whole| + |fraction| == 0 then None
      else
        assert AllDigits(whole + fraction) by {
          assert forall i :: 0 <= i < |whole| ==> whole[i] == s[i];
          assert forall i :: 0 <= i < |fraction| ==> fraction[i] == s[k + 1 + i];
        }
        assert IsDigit(s[if k > 0 then 0 else 1]);
        Some(Decimal(DigitsValue(whole + fraction), |fraction|))
  }

  /** Python's `float()` on digits, a '.', and digits. */
  lemma ReadPointed(whole: string, fraction: string)
    requires AllDigits(whole) && AllDigits(fraction) && |whole| + |fraction| > 0
    ensures DigitsAndDots(whole + "." + fraction)
    ensures FloatOfPlain(whole + "." + fraction) == Some(Decimal(DigitsValue(whole + fraction), |fraction|))
  {
    var s := whole + "." + fraction;
    assert '.' in s by { assert s[|whole|] == '.'; }
    var k := Find(s, '.');
    assert forall i :: 0 <= i < |whole| ==> s[i] == whole[i];
    assert s[|whole|] == '.';
    assert k == |whole|;
    assert s[..k] == whole;
    assert s[k + 1..] == fraction;
  }

  /** Python's `float()` on a non-empty run of digits. */
  lemma ReadWhole(digits: string)
    requires AllDigits(digits) && |digits| > 0
    ensures DigitsAndDots(digits)
    ensures FloatOfPlain(digits) == Some(Decimal(DigitsValue(digits), 0))
  {
  }

  /** Distance between two integers. */
  function Dist(a: int, b: int): nat
  {
    if a < b then b - a else a - b
  }

  /** `cents / 100` is a nearest hundredth to `mantissa / 10^scale`, and an
      even one when two are equally near. */
  predicate NearestCents(d: Decimal, cents: nat) {
    var err := 2 * Dist(cents * Pow10(d.scale), 100 * d.mantissa);
    err <= Pow10(d.scale) && (err == Pow10(d.scale) ==> cents % 2 == 0)
  }

  /** `r` is a whole number nearest to `m / unit`, and an even one when
      two are equally near. */
  predicate NearestMultiple(m: nat, unit: nat, r: nat) {
    var err := 2 * Dist(r * unit, m);
    err <= unit && (err == unit ==> r % 2 == 0)
  }

  /** `m / unit` rounded to a whole number, ties to even, for the even
      `unit == 2 * half`. */
  function HalfEven(m: nat, half: nat): (r: nat)
    requires half > 0
    ensures NearestMultiple(m, 2 * half, r)
  {
    var unit := 2 * half;
    DivMod(m, unit);
    var q: nat, rem: nat := m / unit, m % unit;
    HalfEvenError(m, half, q, rem);
    if rem < half then q else if rem > half then q + 1 else if q % 2 == 0 then q else q + 1
  }

  lemma DivMod(m: nat, unit: nat)
    requires unit > 0
    ensures m == (m / unit) * unit + m % unit && 0 <= m % unit < unit && m / unit >= 0
  {
  }

  lemma HalfEvenError(m: nat, half: nat, q: nat, rem: nat)
    requires half > 0
    requires m == q * (2 * half) + rem && rem < 2 * half
    ensures NearestMultiple(m, 2 * half, if rem < half then q else if rem > half then q + 1 else if q % 2 == 0 then q else q + 1)
  {
    assert (q + 1) * (2 * half) == q * (2 * half) + 2 * half;
  }

  /** The value rounded to whole cents, ties to even (what `:.2f` does to an
      exactly represented value). */
  function RoundToCents(d: Decimal): (r: nat)
    ensures NearestCents(d, r)
  {
    if d.scale <= 2 then
      var r := d.mantissa * Pow10(2 - d.scale);
      ExactCents(d, r);
      r
    else
      var unit := Pow10(d.scale - 2);
      var half := 5 * Pow10(d.scale - 3);
      assert unit == 2 * half;
      var r := HalfEven(d.mantissa, half);
      ScaledError(d, unit, r);
      r
  }

  lemma ExactCents(d: Decimal, r: nat)
    requires d.scale <= 2 && r == d.mantissa * Pow10(2 - d.scale)
    ensures r * Pow10(d.scale) == 100 * d.mantissa
    ensures NearestCents(d, r)
  {
    var k, m := d.scale, d.mantissa;
    Pow10Add(2 - k, k);
    assert Pow10(2) == 100;
    assert r * Pow10(k) == m * (Pow10(2 - k) * Pow10(k));
  }

  /** With at most two fraction digits the rounding is exact. */
  lemma ExactRounding(d: Decimal)
    requires d.scale <= 2
    ensures RoundToCents(d) * Pow10(d.scale) == 100 * d.mantissa
  {
    ExactCents(d, RoundToCents(d));
  }

  /** Scaling both sides by 100 scales their distance by 100. */
  lemma DistScaled(x: int, y: int)
    ensures Dist(100 * x, 100 * y) == 100 * Dist(x, y)
  {
  }

  /** Rounding `mantissa / 10^(scale - 2)` to a whole number rounds
      `mantissa / 10^scale` to a whole number of hundredths. */
  lemma ScaledError(d: Decimal, unit: nat, r: nat)
    requires d.scale > 2 && unit == Pow10(d.scale - 2)
    requires NearestMultiple(d.mantissa, unit, r)
    ensures NearestCents(d, r)
  {
    var k, m := d.scale, d.mantissa;
    assert Pow10(k) == 100 * unit by {
      Pow10Add(2, k - 2);
      assert Pow10(2) == 100;
    }
    var ru := r * unit;
    assert r * Pow10(k) == 100 * ru;
    DistScaled(ru, m);
  }

  /** `sep` sits exactly at every fourth position counted from the right,
      and every other character is a digit. */
  predicate SeparatedEvery4(r: string, sep: char) {
    forall i :: 0 <= i < |r| ==> (r[i] == sep <==> (|r| - i) % 4 == 0) && (r[i] == sep || IsDigit(r[i]))
  }

  /** PEP 378 thousands grouping: `sep` between groups of three digits,
      counted from the right. */
  function GroupThousands(ds: string, sep: char): (r: string)
    requires AllDigits(ds) && !IsDigit(sep)
    ensures SeparatedEvery4(r, sep)
    ensures Without(r, sep) == ds
    ensures |ds| > 0 ==> |r| % 4 != 0
    ensures |ds| > 3 ==> sep in r
    ensures |ds| <= 3 ==> r == ds
    ensures |ds| > 0 ==> r[0] == ds[0]
    decreases |ds|
  {
    CountPositive(ds, sep);
    if |ds| <= 3 then
      WithoutAbsent(ds, sep);
      ds
    else
      var front := GroupThousands(ds[..|ds| - 3], sep);
      GroupStep(ds, front, sep);
      assert ds[..|ds| - 3][0] == ds[0];
      front + [sep] + ds[|ds| - 3..]
  }

  /** One step of the grouping: a full group of three and a separator appended
      to an already grouped prefix keep the grouping properties. */
  lemma GroupStep(ds: string, front: string, sep: char)
    requires AllDigits(ds) && !IsDigit(sep) && |ds| > 3
    requires SeparatedEvery4(front, sep)
    requires Without(front, sep) == ds[..|ds| - 3]
    requires |front| % 4 != 0
    ensures var r := front + [sep] + ds[|ds| - 3..];
      && SeparatedEvery4(r, sep)
      && Without(r, sep) == ds
      && |r| % 4 != 0
      && sep in r
  {
    var back := ds[|ds| - 3..];
    GroupStepPositions(front, back, sep);
    GroupStepDigits(ds[..|ds| - 3], front, back, sep);
    assert ds == ds[..|ds| - 3] + back;
    assert (front + [sep] + back)[|front|] == sep;
  }

  lemma GroupStepPositions(front: string, back: string, sep: char)
    requires |back| == 3 && AllDigits(back) && !IsDigit(sep)
    requires SeparatedEvery4(front, sep)
    ensures SeparatedEvery4(front + [sep] + back, sep)
  {
    var r := front + [sep] + back;
    forall i | 0 <= i < |r|
      ensures r[i] == sep <==> (|r| - i) % 4 == 0
      ensures r[i] == sep || IsDigit(r[i])
    {
      if i < |front| {
        assert r[i] == front[i];
        assert |r| - i == (|front| - i) + 4;
      } else if i > |front| {
        assert r[i] == back[i - |front| - 1];
      }
    }
  }

  lemma GroupStepDigits(prefix: string, front: string, back: string, sep: char)
    requires AllDigits(back) && !IsDigit(sep)
    requires Without(front, sep) == prefix
    ensures Without(front + [sep] + back, sep) == prefix + back
  {
    assert Without(back, sep) == back by {
      assert sep !in back;
      WithoutAbsent(back, sep);
    }
    assert Without(front + [sep], sep) == prefix by {
      WithoutAppend(front, [sep], sep);
      assert Without([sep], sep) == [];
    }
    WithoutAppend(front + [sep], back, sep);
  }

  /** Python's `format(x, '.2f')` of a value rounded to `cents`: the whole
      part, '.', and two digits, which `float()` reads back as exactly
      `cents` hundredths. */
  function Fixed2(cents: nat): (r: string)
    ensures DigitsAndDots(r)
    ensures FloatOfPlain(r) == Some(Decimal(cents, 2))
    ensures |r| >= 4 && r[|r| - 3] == '.' && (r[0] == '0' ==> r[1] == '.')
  {
    var whole := NatToDigits(cents / 100);
    var fraction := TwoDigits(cents % 100);
    ReadPointed(whole, fraction);
    DigitsValueAppend(whole, fraction);
    assert Pow10(2) == 100;
    PointFrame(whole, fraction);
    assert whole[0] == '0' ==> |whole| == 1;
    whole + "." + fraction
  }

  /** The whole part of "whole.ff" is everything before the third character
      from the right, which is the '.'. */
  lemma PointFrame(whole: string, fraction: string)
    requires |fraction| == 2
    ensures var r := whole + "." + fraction;
      && |r| == |whole| + 3 && r[|r| - 3] == '.' && r[..|r| - 3] == whole
      && (|whole| > 0 ==> r[0] == whole[0])
      && (|whole| == 1 ==> r[1] == '.')
  {
  }

  /** Python's `format(x, ',.2f')` of a value rounded to `cents`: the `.2f`
      text with grouping commas inserted into its whole part. */
  function GroupedFixed2(cents: nat): (r: string)
    ensures Without(r, ',') == Fixed2(cents)
    ensures |r| >= 4 && r[|r| - 3] == '.'
    ensures SeparatedEvery4(r[..|r| - 3], ',') && (|r| - 3) % 4 != 0
  {
    var ds := NatToDigits(cents / 100);
    var dd := TwoDigits(cents % 100);
    var g := GroupThousands(ds, ',');
    UngroupTail(g, ds, dd);
    PointFrame(g, dd);
    g + "." + dd
  }

  /** Deleting the commas from a grouped whole part followed by '.' and
      digits deletes them from the whole part alone. */
  lemma UngroupTail(g: string, ds: string, dd: string)
    requires Without(g, ',') == ds && AllDigits(dd)
    ensures Without(g + "." + dd, ',') == ds + "." + dd
  {
    var tail := "." + dd;
    assert g + "." + dd == g + tail;
    WithoutAppend(g, tail, ',');
    assert forall i :: 0 <= i < |tail| ==> tail[i] != ',';
    WithoutAbsent(tail, ',');
  }
}
