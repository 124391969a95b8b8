/** `format_currency` (utils.py lines 5-19), applied to the text `str(value)`:
    keep digits, '.' and ','; decide which separator is the decimal mark;
    read the rest with `float()`; render it pt-BR style, or give "N/A". */
module Currency {
  import opened Text
  import opened Numbers

  /** The characters the line-7 filter keeps. */
  predicate IsKept(c: char) {
    IsDigit(c) || c == '.' || c == ','
  }

  predicate AllKept(s: string) {
    forall i :: 0 <= i < |s| ==> IsKept(s[i])
  }

  /** Line 7: the subsequence of `s` made of digits, '.' and ','. Every such
      character survives with its multiplicity; everything else (a '-' sign,
      "R$", letters, spaces) is dropped. */
  function KeepNumeric(s: string): (r: string)
    ensures AllKept(r)
    ensures forall c :: Count(r, c) == if IsKept(c) then Count(s, c) else 0
  {
    if |s| == 0 then []
    else
      var rest := KeepNumeric(s[1..]);
      if IsKept(s[0]) then assert ([s[0]] + rest)[1..] == rest; [s[0]] + rest
      else rest
  }

  /** The filter works character by character, so it keeps the order of what it keeps. */
  lemma {:induction false} KeepNumericAppend(a: string, b: string)
    ensures KeepNumeric(a + b) == KeepNumeric(a) + KeepNumeric(b)
  {
    if |a| == 0 {
      assert a + b == b;
    } else {
      assert (a + b)[1..] == a[1..] + b;
      KeepNumericAppend(a[1..], b);
    }
  }

  lemma {:induction false} KeepNumericKeepsAll(s: string)
    requires AllKept(s)
    ensures KeepNumeric(s) == s
  {
    if |s| > 0 {
      KeepNumericKeepsAll(s[1..]);
      assert s == [s[0]] + s[1..];
    }
  }

  /** Lines 9-10: both separators occur and the last ',' comes after the last '.'. */
  predicate TakesPtBrBranch(ns: string) {
    ',' in ns && '.' in ns && RFind(ns, ',') > RFind(ns, '.')
  }

  /** The branch test of lines 9-10 without `rfind`: some ',' has a '.'
      before it and none after it. */
  lemma BranchByLastComma(ns: string)
    ensures TakesPtBrBranch(ns) <==>
      exists j :: 0 <= j < |ns| && ns[j] == ',' && '.' in ns[..j] && '.' !in ns[j..]
  {
    if TakesPtBrBranch(ns) {
      var j, i := RFind(ns, ','), RFind(ns, '.');
      assert ns[..j][i] == '.';
      assert forall k :: 0 <= k < |ns[j..]| ==> ns[j..][k] == ns[j + k];
    }
    if exists j :: 0 <= j < |ns| && ns[j] == ',' && '.' in ns[..j] && '.' !in ns[j..] {
      var j :| 0 <= j < |ns| && ns[j] == ',' && '.' in ns[..j] && '.' !in ns[j..];
      var i :| 0 <= i < j && ns[..j][i] == '.';
      assert ns[i] == '.';
      forall k | j <= k < |ns|
        ensures ns[k] != '.'
      {
        assert ns[j..][k - j] == ns[k];
      }
    }
  }

  /** Line 11: delete all but the last '.', then turn every ',' into '.'. */
  function PtBrStep(ns: string): (r: string)
    requires '.' in ns
    ensures Count(r, '.') == 1 + Count(ns, ',')
    ensures Count(r, ',') == 0
    ensures forall d :: d != '.' && d != ',' ==> Count(r, d) == Count(ns, d)
  {
    PtBrStepCounts(ns);
    Replace(Replace(ns, ".", "", Count(ns, '.') - 1), ",", ".", -1)
  }

  lemma PtBrStepCounts(ns: string)
    requires '.' in ns
    ensures var r := Replace(Replace(ns, ".", "", Count(ns, '.') - 1), ",", ".", -1);
      && Count(r, '.') == 1 + Count(ns, ',')
      && Count(r, ',') == 0
      && forall d :: d != '.' && d != ',' ==> Count(r, d) == Count(ns, d)
  {
    CountPositive(ns, '.');
    var n: nat := Count(ns, '.') - 1;
    var x := Replace(ns, ".", "", n);
    ReplaceDeletesFirst(ns, '.', n);
    ReplaceCharByChar(x, ',', '.');
    forall d | d != '.'
      ensures Count(x, d) == Count(ns, d)
    {
      WithoutCount(x, '.', d);
      WithoutCount(ns, '.', d);
    }
    forall d
      ensures Count(MapChar(x, ',', '.'), d) ==
        if d == '.' then Count(x, ',') + Count(x, '.') else if d == ',' then 0 else Count(x, d)
    {
      MapCharCount(x, ',', '.', d);
    }
  }

  /** Lines 9-13: the string handed to `float()`. Only digits and '.' remain,
      and no digit is lost. */
  function Normalise(ns: string): (r: string)
    requires AllKept(ns)
    ensures DigitsAndDots(r)
    ensures forall d :: IsDigit(d) ==> Count(r, d) == Count(ns, d)
  {
    var ns1 := if TakesPtBrBranch(ns) then PtBrStep(ns) else ns;
    assert forall c :: !IsKept(c) ==> Count(ns1, c) == 0 by {
      forall c | !IsKept(c) ensures Count(ns1, c) == 0 {
        CountPositive(ns, c);
      }
    }
    ReplaceDeletesAll(ns1, ',');
    WithoutCounts(ns1, ',');
    DigitsAndDotsByCount(Without(ns1, ','));
    Replace(ns1, ",", "", -1)
  }

  /** Outside the pt-BR branch (no ',', no '.', or the last '.' after the last
      ','), normalising only deletes the commas: digits and dots keep their order. */
  lemma NormaliseEnUs(ns: string)
    requires AllKept(ns) && !TakesPtBrBranch(ns)
    ensures Normalise(ns) == Without(ns, ',')
  {
    ReplaceDeletesAll(ns, ',');
  }

  /** In the pt-BR branch the surviving '.' and one '.' per ',' remain: at
      least two dots, so `float()` raises and the result is "N/A". */
  lemma NormalisePtBr(ns: string)
    requires AllKept(ns) && TakesPtBrBranch(ns)
    ensures Count(Normalise(ns), '.') == 1 + Count(ns, ',') >= 2
    ensures FloatOfPlain(Normalise(ns)) == None
  {
    CountPositive(ns, ',');
    var x := PtBrStep(ns);
    ReplaceDeletesAll(x, ',');
    WithoutCount(x, ',', '.');
  }

  /** The pt-BR rendering of an amount in cents: "R$ ", the whole part grouped
      in threes by '.', ',' and two cents digits. */
  function RenderCents(cents: nat): string
  {
    "R$ " + PtBrNumber(cents)
  }

  function PtBrNumber(cents: nat): string
  {
    GroupThousands(NatToDigits(cents / 100), '.') + "," + TwoDigits(cents % 100)
  }

  /** Digits, each non-separator position a digit, grouped by `sep` in threes
      from the right, with no leading zero. */
  predicate IsGrouped(g: string, sep: char) {
    && |g| % 4 != 0
    && SeparatedEvery4(g, sep)
    && (g[0] == '0' ==> |g| == 1)
  }

  /** A successful `format_currency` result. */
  predicate IsPtBrAmount(r: string) {
    && |r| >= 7
    && r[..3] == "R$ "
    && r[|r| - 3] == ','
    && IsDigit(r[|r| - 2]) && IsDigit(r[|r| - 1])
    && IsGrouped(r[3..|r| - 3], '.')
  }

  lemma RenderCentsShape(cents: nat)
    ensures IsPtBrAmount(RenderCents(cents))
    ensures Count(RenderCents(cents), ',') == 1
  {
    var ds, dd := NatToDigits(cents / 100), TwoDigits(cents % 100);
    assert RenderCents(cents) == "R$ " + GroupThousands(ds, '.') + "," + dd;
    AmountShape(ds, dd);
  }

  lemma AmountShape(ds: string, dd: string)
    requires AllDigits(ds) && |ds| >= 1 && (ds[0] == '0' ==> |ds| == 1)
    requires AllDigits(dd) && |dd| == 2
    ensures var r := "R$ " + GroupThousands(ds, '.') + "," + dd;
      IsPtBrAmount(r) && Count(r, ',') == 1
  {
    GroupedShape(ds);
    FramedShape(GroupThousands(ds, '.'), dd);
  }

  /** The '.'-grouped whole part is grouped and holds no ','. */
  lemma GroupedShape(ds: string)
    requires AllDigits(ds) && |ds| >= 1 && (ds[0] == '0' ==> |ds| == 1)
    ensures IsGrouped(GroupThousands(ds, '.'), '.')
    ensures Count(GroupThousands(ds, '.'), ',') == 0
  {
    var g := GroupThousands(ds, '.');
    assert g[0] == '0' ==> |g| == 1 by {
      assert g[0] == ds[0];
      assert |ds| <= 3 ==> g == ds;
    }
    assert ',' !in g;
    CountPositive(g, ',');
  }

  lemma FramedShape(g: string, dd: string)
    requires IsGrouped(g, '.') && Count(g, ',') == 0
    requires AllDigits(dd) && |dd| == 2
    ensures var r := "R$ " + g + "," + dd;
      IsPtBrAmount(r) && Count(r, ',') == 1
  {
    var r := "R$ " + g + "," + dd;
    assert r[3..|r| - 3] == g;
    assert r[..3] == "R$ ";
    DigitsLack(dd, ',');
    CountAppend("R$ " + g + ",", dd, ',');
    CountAppend("R$ " + g, ",", ',');
    CountAppend("R$ ", g, ',');
  }

  /** Line 17 as written: the three replaces that pass through the
      placeholder 'X'. */
  function PlaceholderSwap(t: string): (r: string)
    ensures 'X' !in t ==> r == SwapSeparators(t)
  {
    assert 'X' !in t ==> Replace(Replace(Replace(t, ",", "X", -1), ".", ",", -1), "X", ".", -1) == SwapSeparators(t) by {
      if 'X' !in t {
        assert "," == [','] && "X" == ['X'] && "." == ['.'];
        ReplaceCharByChar(t, ',', 'X');
        var t1 := MapChar(t, ',', 'X');
        ReplaceCharByChar(t1, '.', ',');
        var t2 := MapChar(t1, '.', ',');
        ReplaceCharByChar(t2, 'X', '.');
        assert MapChar(t2, 'X', '.') == SwapSeparators(t);
      }
    }
    Replace(Replace(Replace(t, ",", "X", -1), ".", ",", -1), "X", ".", -1)
  }

  /** Line 17 in full: "R$ " and the en-US `:,.2f` text, then the placeholder swap. */
  function Line17(cents: nat): (r: string)
    ensures r == RenderCents(cents)
  {
    SwapRendering(cents);
    PlaceholderSwap("R$ " + GroupedFixed2(cents))
  }

  /** The en-US rendering holds no 'X', so the placeholder swap exchanges its
      separators and gives the pt-BR rendering. */
  lemma SwapRendering(cents: nat)
    ensures PlaceholderSwap("R$ " + GroupedFixed2(cents)) == RenderCents(cents)
  {
    var ds, dd := NatToDigits(cents / 100), TwoDigits(cents % 100);
    var g := GroupThousands(ds, ',');
    assert GroupedFixed2(cents) == g + "." + dd;
    assert "R$ " + GroupedFixed2(cents) == "R$ " + g + "." + dd;
    assert RenderCents(cents) == "R$ " + GroupThousands(ds, '.') + "," + dd by {
      Regroup("R$ ", GroupThousands(ds, '.'), ",", dd);
    }
    SwapFramed(ds, dd);
  }

  lemma {:induction false} GroupSwap(ds: string)
    requires AllDigits(ds)
    ensures SwapSeparators(GroupThousands(ds, ',')) == GroupThousands(ds, '.')
    decreases |ds|
  {
    if |ds| > 3 {
      GroupSwap(ds[..|ds| - 3]);
      var front := GroupThousands(ds[..|ds| - 3], ',');
      SwapAppend(front + [','], ds[|ds| - 3..]);
      SwapAppend(front, [',']);
    } else {
      assert SwapSeparators(ds) == ds;
    }
  }

  /** The en-US rendering holds no 'X' and swaps into the pt-BR one. */
  lemma SwapAmount(ds: string, dd: string)
    requires AllDigits(ds) && AllDigits(dd)
    ensures var t := "R$ " + GroupThousands(ds, ',') + "." + dd;
      'X' !in t && SwapSeparators(t) == "R$ " + GroupThousands(ds, '.') + "," + dd
  {
    GroupSwap(ds);
    SwapFrame(GroupThousands(ds, ','), GroupThousands(ds, '.'), dd);
  }

  lemma SwapFrame(g: string, g': string, dd: string)
    requires forall i :: 0 <= i < |g| ==> g[i] == ',' || IsDigit(g[i])
    requires SwapSeparators(g) == g' && AllDigits(dd)
    ensures var t := "R$ " + g + "." + dd;
      'X' !in t && SwapSeparators(t) == "R$ " + g' + "," + dd
  {
    var t := "R$ " + g + "." + dd;
    assert forall i :: 0 <= i < |t| ==> t[i] != 'X';
    SwapAppend("R$ " + g + ".", dd);
    SwapAppend("R$ " + g, ".");
    SwapAppend("R$ ", g);
    assert SwapSeparators("R$ ") == "R$ ";
    assert SwapSeparators(dd) == dd;
    assert SwapSeparators(".") == ",";
  }

  lemma SwapFramed(ds: string, dd: string)
    requires AllDigits(ds) && AllDigits(dd)
    ensures var t := "R$ " + GroupThousands(ds, ',') + "." + dd;
      && PlaceholderSwap(t) == SwapSeparators(t)
      && SwapSeparators(t) == "R$ " + GroupThousands(ds, '.') + "," + dd
  {
    SwapAmount(ds, dd);
  }

  /** Lines 15-19 after normalisation: `float()` either raises, giving "N/A",
      or yields a value that line 17 renders as a pt-BR amount. */
  function Convert(ns: string): (r: string)
    requires DigitsAndDots(ns)
    ensures r == "N/A" <==> FloatOfPlain(ns).None?
    ensures r == "N/A" || (IsPtBrAmount(r) && Count(r, ',') == 1)
    ensures FloatOfPlain(ns).Some? ==> r == RenderCents(RoundToCents(FloatOfPlain(ns).value))
  {
    match FloatOfPlain(ns)
    case None => "N/A"
    case Some(d) =>
      var cents := RoundToCents(d);
      RenderCentsShape(cents);
      Line17(cents)
  }

  /** `format_currency(value)`, with `text` standing for `str(value)`. Every
      outcome is "N/A" or a pt-BR amount with exactly one ',' (so never a
      negative amount). */
  function FormatCurrency(text: string): (r: string)
    ensures r == "N/A" || (IsPtBrAmount(r) && Count(r, ',') == 1)
  {
    Convert(Normalise(KeepNumeric(text)))
  }

  /** Exactly when the result is "N/A": no digit at all, two or more dots, or
      the pt-BR branch (both separators, ',' last). */
  lemma FormatCurrencyNA(text: string)
    ensures FormatCurrency(text) == "N/A" <==>
      !HasDigit(text) || Count(text, '.') >= 2 || TakesPtBrBranch(KeepNumeric(text))
  {
    var ns := KeepNumeric(text);
    var n := Normalise(ns);
    HasDigitByCount(n, text);
    if TakesPtBrBranch(ns) {
      NormalisePtBr(ns);
    } else {
      NormaliseEnUs(ns);
      WithoutCount(ns, ',', '.');
    }
  }

  /** A sign never reaches `float()`: a negative input renders as its magnitude. */
  lemma SignDropped(text: string)
    ensures FormatCurrency("-" + text) == FormatCurrency(text)
  {
    assert ("-" + text)[1..] == text;
  }

  /** A value read back from the two-decimal text of `cents` rounds to `cents`. */
  lemma ReadsCents(cents: nat)
    ensures RoundToCents(Decimal(cents, 2)) == cents
  {
    ExactRounding(Decimal(cents, 2));
    assert Pow10(2) == 100;
  }

  /** Text with '.' as the only possible separator kind outside a leading
      comma-grouped part: the last ',' sits before the '.' at `point`. */
  lemma EnUsShape(t: string, point: nat)
    requires point < |t| && t[point] == '.'
    requires forall i :: point < i < |t| ==> IsDigit(t[i])
    ensures !TakesPtBrBranch(t)
  {
    var k := RFind(t, ',');
    if k >= 0 {
      assert k < point;
    }
  }

  lemma EnUsNormalises(ds: string, dd: string)
    requires AllDigits(ds) && AllDigits(dd)
    ensures var t := GroupThousands(ds, ',') + "." + dd;
      AllKept(t) && Normalise(KeepNumeric(t)) == ds + "." + dd
  {
    EnUsFrame(GroupThousands(ds, ','), ds, dd);
  }

  lemma EnUsFrame(g: string, ds: string, dd: string)
    requires forall i :: 0 <= i < |g| ==> g[i] == ',' || IsDigit(g[i])
    requires Without(g, ',') == ds && AllDigits(dd)
    ensures var t := g + "." + dd;
      AllKept(t) && Normalise(KeepNumeric(t)) == ds + "." + dd
  {
    EnUsText(g, dd);
    UngroupTail(g, ds, dd);
    KeptEnUsNormalises(g + "." + dd);
  }

  lemma EnUsText(g: string, dd: string)
    requires forall i :: 0 <= i < |g| ==> g[i] == ',' || IsDigit(g[i])
    requires AllDigits(dd)
    ensures var t := g + "." + dd;
      AllKept(t) && !TakesPtBrBranch(t)
  {
    var t := g + "." + dd;
    assert AllKept(t);
    EnUsShape(t, |g|);
  }

  /** Text the filter keeps whole, outside the pt-BR branch, reaches
      `float()` with only its commas deleted. */
  lemma KeptEnUsNormalises(t: string)
    requires AllKept(t) && !TakesPtBrBranch(t)
    ensures Normalise(KeepNumeric(t)) == Without(t, ',')
  {
    KeepNumericKeepsAll(t);
    NormaliseEnUs(t);
  }

  /** The en-US text Python itself writes with `:,.2f` ("1,234.56") comes
      out as the pt-BR rendering of the same amount ("R$ 1.234,56"). */
  lemma EnUsAmountRenders(cents: nat)
    ensures FormatCurrency(GroupedFixed2(cents)) == RenderCents(cents)
  {
    var ds, dd := NatToDigits(cents / 100), TwoDigits(cents % 100);
    assert GroupedFixed2(cents) == GroupThousands(ds, ',') + "." + dd;
    assert Fixed2(cents) == ds + "." + dd;
    EnUsNormalises(ds, dd);
    ReadsCents(cents);
  }

  lemma PlainNormalises(ds: string, dd: string)
    requires AllDigits(ds) && AllDigits(dd)
    ensures var t := ds + "." + dd;
      AllKept(t) && Normalise(KeepNumeric(t)) == t
  {
    var t := ds + "." + dd;
    assert AllKept(t);
    assert !TakesPtBrBranch(t) by {
      EnUsShape(t, |ds|);
    }
    assert Without(t, ',') == t by {
      assert forall i :: 0 <= i < |t| ==> t[i] != ',';
      WithoutAbsent(t, ',');
    }
    KeptEnUsNormalises(t);
  }

  /** Two-decimal text without grouping ("1234.56") renders as that amount. */
  lemma PlainAmountRenders(cents: nat)
    ensures FormatCurrency(Fixed2(cents)) == RenderCents(cents)
  {
    var ds, dd := NatToDigits(cents / 100), TwoDigits(cents % 100);
    assert Fixed2(cents) == ds + "." + dd;
    PlainNormalises(ds, dd);
    ReadsCents(cents);
  }

  /** What line 7 leaves of a pt-BR rendering: the grouped digits, ',' and the cents. */
  lemma RenderedKept(cents: nat)
    ensures KeepNumeric(RenderCents(cents)) == PtBrNumber(cents)
  {
    var ds, dd := NatToDigits(cents / 100), TwoDigits(cents % 100);
    KeptAmount(ds, dd);
    assert RenderCents(cents) == "R$ " + GroupThousands(ds, '.') + "," + dd;
  }

  lemma KeptAmount(ds: string, dd: string)
    requires AllDigits(ds) && AllDigits(dd)
    ensures KeepNumeric("R$ " + GroupThousands(ds, '.') + "," + dd) == GroupThousands(ds, '.') + "," + dd
  {
    var g := GroupThousands(ds, '.');
    assert forall i :: 0 <= i < |g| ==> g[i] == '.' || IsDigit(g[i]) by {
      assert SeparatedEvery4(g, '.');
    }
    PointGroupedKept(g, dd);
    KeptFramed(g + "," + dd);
    Regroup("R$ ", g, ",", dd);
  }

  /** A '.'-grouped whole part, ',' and digits is kept whole by the filter. */
  lemma PointGroupedKept(g: string, dd: string)
    requires forall i :: 0 <= i < |g| ==> g[i] == '.' || IsDigit(g[i])
    requires AllDigits(dd)
    ensures AllKept(g + "," + dd)
  {
    var p := g + "," + dd;
    assert forall i :: 0 <= i < |p| ==> IsKept(p[i]);
  }

  /** The filter drops the "R$ " frame and keeps text it keeps whole. */
  lemma KeptFramed(p: string)
    requires AllKept(p)
    ensures KeepNumeric("R$ " + p) == p
  {
    KeepNumericKeepsAll(p);
    assert KeepNumeric("R$ ") == [] by {
      assert "R$ "[1..] == "$ " && "$ "[1..] == " " && " "[1..] == [];
    }
    KeepNumericAppend("R$ ", p);
  }

  /** A grouped pt-BR number of four or more whole digits takes the pt-BR branch. */
  lemma LargeTakesPtBr(ds: string, dd: string)
    requires AllDigits(ds) && AllDigits(dd) && |ds| > 3
    ensures TakesPtBrBranch(GroupThousands(ds, '.') + "," + dd)
  {
    PointBeforeComma(GroupThousands(ds, '.'), dd);
  }

  /** A '.' before a final ',' that only digits follow. */
  lemma PointBeforeComma(g: string, dd: string)
    requires '.' in g && AllDigits(dd)
    ensures TakesPtBrBranch(g + "," + dd)
  {
    var p := g + "," + dd;
    var i :| 0 <= i < |g| && g[i] == '.';
    assert p[i] == '.';
    assert p[|g|] == ',';
    assert forall j :: |g| < j < |p| ==> IsDigit(p[j]);
    assert RFind(p, ',') == |g|;
  }

  /** A pt-BR amount of 1.000,00 or more (both separators, ',' last) is
      rejected: `format_currency` cannot read back its own output. */
  lemma PtBrAmountRejected(cents: nat)
    requires cents >= 100000
    ensures FormatCurrency(RenderCents(cents)) == "N/A"
  {
    var ds, dd := NatToDigits(cents / 100), TwoDigits(cents % 100);
    RenderedKept(cents);
    assert PtBrNumber(cents) == GroupThousands(ds, '.') + "," + dd;
    assert Pow10(3) == 1000;
    DigitsLengthAtLeast(cents / 100, 3);
    LargeTakesPtBr(ds, dd);
    NormalisePtBr(PtBrNumber(cents));
  }

  lemma SmallNormalises(ds: string, dd: string)
    requires AllDigits(ds) && AllDigits(dd) && |ds| <= 3
    ensures var p := GroupThousands(ds, '.') + "," + dd;
      AllKept(p) && Normalise(p) == ds + dd
  {
    assert GroupThousands(ds, '.') == ds;
    CommaOnlyFrame(ds, dd);
  }

  lemma CommaOnlyFrame(ds: string, dd: string)
    requires AllDigits(ds) && AllDigits(dd)
    ensures var p := ds + "," + dd;
      AllKept(p) && Normalise(p) == ds + dd
  {
    var p := ds + "," + dd;
    assert AllKept(p) && !TakesPtBrBranch(p) by {
      assert '.' !in p;
    }
    assert Without(ds, ',') == ds by {
      assert ',' !in ds;
      WithoutAbsent(ds, ',');
    }
    assert Without(dd, ',') == dd by {
      assert ',' !in dd;
      WithoutAbsent(dd, ',');
    }
    assert Without(p, ',') == ds + dd by {
      WithoutAppend(ds + ",", dd, ',');
      WithoutAppend(ds, ",", ',');
      assert Without(",", ',') == [];
    }
    NormaliseEnUs(p);
  }

  /** A pt-BR amount below 1.000,00 has only the ',' and no '.', and line 13
      deletes that ',' as a thousands mark: "R$ 45,90" becomes "R$ 4.590,00",
      a hundred times the amount. */
  lemma SmallPtBrAmountScaled(cents: nat)
    requires cents < 100000
    ensures FormatCurrency(RenderCents(cents)) == RenderCents(100 * cents)
  {
    SmallPtBrReading(cents);
    ExactRounding(Decimal(cents, 0));
    assert Pow10(2) == 100 && Pow10(0) == 1;
  }

  /** Below 1.000,00 the pt-BR rendering reaches `float()` as its digits alone. */
  lemma SmallPtBrReading(cents: nat)
    requires cents < 100000
    ensures FloatOfPlain(Normalise(KeepNumeric(RenderCents(cents)))) == Some(Decimal(cents, 0))
  {
    var ds, dd := NatToDigits(cents / 100), TwoDigits(cents % 100);
    RenderedKept(cents);
    assert PtBrNumber(cents) == GroupThousands(ds, '.') + "," + dd;
    assert Pow10(3) == 1000;
    DigitsLengthAtMost(cents / 100, 3);
    SmallNormalises(ds, dd);
    ReadWhole(ds + dd);
    DigitsValueAppend(ds, dd);
    assert Pow10(2) == 100;
  }
}
