/** `format_currency` with the pt-BR branch as its comment describes it
    ("1.234,56" is 1234.56): every '.' is a thousands mark and is deleted,
    then the ',' becomes the decimal point. Everything else is as in
    module Currency. */
module CurrencyFix {
  import opened Text
  import opened Numbers
  import opened Currency

  /** Lines 9-13 with line 11 deleting every '.' instead of all but the last. */
  function NormaliseIntended(ns: string): (r: string)
    requires AllKept(ns)
    ensures DigitsAndDots(r)
    ensures forall d :: IsDigit(d) ==> Count(r, d) == Count(ns, d)
    ensures TakesPtBrBranch(ns) ==> Count(r, '.') == Count(ns, ',')
    ensures !TakesPtBrBranch(ns) ==> r == Normalise(ns)
  {
    if TakesPtBrBranch(ns) then
      IntendedStepCounts(ns);
      var ns1 := Replace(Replace(ns, ".", "", -1), ",", ".", -1);
      assert forall c :: !IsKept(c) ==> Count(ns1, c) == 0 by {
        forall c | !IsKept(c) ensures Count(ns1, c) == 0 {
          CountPositive(ns, c);
        }
      }
      ReplaceDeletesAll(ns1, ',');
      WithoutCounts(ns1, ',');
      DigitsAndDotsByCount(Without(ns1, ','));
      Replace(ns1, ",", "", -1)
    else
      Normalise(ns)
  }

  lemma IntendedStepCounts(ns: string)
    requires AllKept(ns)
    ensures var r := Replace(Replace(ns, ".", "", -1), ",", ".", -1);
      && Count(r, '.') == Count(ns, ',')
      && Count(r, ',') == 0
      && forall d :: d != '.' && d != ',' ==> Count(r, d) == Count(ns, d)
  {
    var x := Without(ns, '.');
    ReplaceDeletesAll(ns, '.');
    WithoutCounts(ns, '.');
    ReplaceCharByChar(x, ',', '.');
    forall d
      ensures Count(MapChar(x, ',', '.'), d) ==
        if d == '.' then Count(x, ',') + Count(x, '.') else if d == ',' then 0 else Count(x, d)
    {
      MapCharCount(x, ',', '.', d);
    }
  }

  /** The corrected `format_currency`. */
  function FormatCurrencyIntended(text: string): (r: string)
    ensures r == "N/A" || (IsPtBrAmount(r) && Count(r, ',') == 1)
    ensures !TakesPtBrBranch(KeepNumeric(text)) ==> r == FormatCurrency(text)
  {
    Convert(NormaliseIntended(KeepNumeric(text)))
  }

  /** With the correction, a pt-BR amount of 1.000,00 or more reads back as
      itself: "R$ 1.234,56" stays "R$ 1.234,56". */
  lemma PtBrAmountRoundTrips(cents: nat)
    requires cents >= 100000
    ensures FormatCurrencyIntended(RenderCents(cents)) == RenderCents(cents)
  {
    var ds, dd := NatToDigits(cents / 100), TwoDigits(cents % 100);
    RenderedKept(cents);
    assert PtBrNumber(cents) == GroupThousands(ds, '.') + "," + dd;
    assert Pow10(3) == 1000;
    DigitsLengthAtLeast(cents / 100, 3);
    LargeTakesPtBr(ds, dd);
    IntendedFrame(GroupThousands(ds, '.'), ds, dd);
    assert Fixed2(cents) == ds + "." + dd;
    ReadsCents(cents);
  }

  lemma IntendedFrame(g: string, ds: string, dd: string)
    requires forall i :: 0 <= i < |g| ==> g[i] == '.' || IsDigit(g[i])
    requires Without(g, '.') == ds && AllDigits(ds) && AllDigits(dd)
    requires TakesPtBrBranch(g + "," + dd)
    ensures AllKept(g + "," + dd)
    ensures NormaliseIntended(g + "," + dd) == ds + "." + dd
  {
    PointGroupedKept(g, dd);
    IntendedReplaces(g, ds, dd);
    IntendedSteps(g + "," + dd, ds + "," + dd, ds + "." + dd);
  }

  /** The three replaces of the corrected branch on a rendered amount. */
  lemma IntendedReplaces(g: string, ds: string, dd: string)
    requires forall i :: 0 <= i < |g| ==> g[i] == '.' || IsDigit(g[i])
    requires Without(g, '.') == ds && AllDigits(ds) && AllDigits(dd)
    ensures Replace(g + "," + dd, ".", "", -1) == ds + "," + dd
    ensures Replace(ds + "," + dd, ",", ".", -1) == ds + "." + dd
    ensures Replace(ds + "." + dd, ",", "", -1) == ds + "." + dd
  {
    assert Replace(g + "," + dd, ".", "", -1) == ds + "," + dd by {
      ReplaceDeletesAll(g + "," + dd, '.');
      DropPoints(g, ds, dd);
    }
    assert Replace(ds + "," + dd, ",", ".", -1) == ds + "." + dd by {
      ReplaceCharByChar(ds + "," + dd, ',', '.');
      MapComma(ds, dd);
    }
    PointedKeepsAll(ds, dd);
  }

  lemma MapComma(ds: string, dd: string)
    requires AllDigits(ds) && AllDigits(dd)
    ensures MapChar(ds + "," + dd, ',', '.') == ds + "." + dd
  {
  }

  /** The corrected pt-BR branch, step by step. */
  lemma IntendedSteps(p: string, undotted: string, pointed: string)
    requires AllKept(p) && TakesPtBrBranch(p)
    requires Replace(p, ".", "", -1) == undotted
    requires Replace(undotted, ",", ".", -1) == pointed
    requires Replace(pointed, ",", "", -1) == pointed
    ensures NormaliseIntended(p) == pointed
  {
  }

  lemma PointedKeepsAll(ds: string, dd: string)
    requires AllDigits(ds) && AllDigits(dd)
    ensures Replace(ds + "." + dd, ",", "", -1) == ds + "." + dd
  {
    var t := ds + "." + dd;
    assert ',' !in t;
    ReplaceNoMatch(t, ",", "", -1);
  }

  lemma DropPoints(g: string, ds: string, dd: string)
    requires Without(g, '.') == ds && AllDigits(dd)
    ensures Without(g + "," + dd, '.') == ds + "," + dd
  {
    var tail := "," + dd;
    assert g + "," + dd == g + tail;
    WithoutAppend(g, tail, '.');
    assert '.' !in tail;
    WithoutAbsent(tail, '.');
  }
}
