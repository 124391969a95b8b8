/** The cell cleanup of `load_kpis` (utils.py lines 37-41) and `load_midia`
    (line 62): turn a pt-BR cell such as "R$ 1.234,56" or "12,5%" into the
    plain text "1234.56" / "12.5" handed to `pd.to_numeric`. */
module Cleanup {
  import opened Text
  import opened Numbers
  import opened Currency

  /** Lines 37-41: delete "R$", '%' and every '.', turn ',' into '.', strip.
      After the "R$" delete, each step is `Without`, `MapChar` or `Strip`,
      which keep every remaining character in its place relative to the
      others; the "R$" delete itself is described by the counts it keeps
      (`DeletePairCount`) and on a rendered amount (`DropCurrencySign`). */
  function CleanKpiCell(cell: string): (r: string)
    ensures r == Strip(MapChar(Without(Without(Replace(cell, "R$", "", -1), '%'), '.'), ',', '.'))
    ensures 'R' !in cell && '%' !in cell ==> r == Strip(MapChar(Without(cell, '.'), ',', '.'))
    ensures r == [] || (!IsSpace(r[0]) && !IsSpace(r[|r| - 1]))
    ensures Count(r, '%') == 0 && Count(r, ',') == 0
    ensures Count(r, '.') == Count(cell, ',')
    ensures forall d :: Plain(d) ==> Count(r, d) == Count(cell, d)
  {
    var x1 := Replace(cell, "R$", "", -1);
    DeleteDeleteMap(x1, '%', '.');
    NoSignUntouched(cell);
    SignPairCounts(cell);
    MappedCounts(cell, x1);
    Strip(Replace(Replace(Replace(x1, "%", "", -1), ".", "", -1), ",", ".", -1))
  }

  /** Deleting every `a`, then every `b`, then mapping ',' to '.' with
      `str.replace` (lines 38-40, and line 62 in the other order) is
      `Without` twice followed by `MapChar`. */
  lemma DeleteDeleteMap(x: string, a: char, b: char)
    ensures Replace(Replace(Replace(x, [a], "", -1), [b], "", -1), ",", ".", -1)
         == MapChar(Without(Without(x, a), b), ',', '.')
  {
    ReplaceDeletesAll(x, a);
    ReplaceDeletesAll(Without(x, a), b);
    ReplaceCharByChar(Without(Without(x, a), b), ',', '.');
  }

  /** A cell without 'R' and '%' passes the first two replaces unchanged. */
  lemma NoSignUntouched(cell: string)
    ensures 'R' !in cell && '%' !in cell ==> Replace(cell, "R$", "", -1) == cell && Without(cell, '%') == cell
  {
    if 'R' !in cell && '%' !in cell {
      ReplaceNoMatch(cell, "R$", "", -1);
      WithoutAbsent(cell, '%');
    }
  }

  /** Deleting "R$" pairs keeps every other character. */
  lemma SignPairCounts(cell: string)
    ensures forall d :: d != 'R' && d != '$' ==> Count(Replace(cell, "R$", "", -1), d) == Count(cell, d)
  {
    forall d | d != 'R' && d != '$'
      ensures Count(Replace(cell, "R$", "", -1), d) == Count(cell, d)
    {
      DeletePairCount(cell, "R$", d);
    }
  }

  /** No separator, sign or space character other than the ones named. */
  predicate Plain(d: char) {
    !IsSpace(d) && d != 'R' && d != '$' && d != '%' && d != '.' && d != ','
  }

  lemma MappedCounts(cell: string, x1: string)
    requires forall d :: d != 'R' && d != '$' ==> Count(x1, d) == Count(cell, d)
    ensures var r := Strip(MapChar(Without(Without(x1, '%'), '.'), ',', '.'));
      && Count(r, '%') == 0 && Count(r, ',') == 0
      && Count(r, '.') == Count(cell, ',')
      && forall d :: Plain(d) ==> Count(r, d) == Count(cell, d)
  {
    var x2 := Without(x1, '%');
    var x3 := Without(x2, '.');
    var x4 := MapChar(x3, ',', '.');
    var r := Strip(x4);
    WithoutCounts(x1, '%');
    WithoutCounts(x2, '.');
    assert Count(x3, ',') == Count(cell, ',');
    assert Count(x3, '.') == 0;
    assert Count(x3, '%') == 0;
    MapCharCount(x3, ',', '.', '.');
    MapCharCount(x3, ',', '.', ',');
    MapCharCount(x3, ',', '.', '%');
    assert !IsSpace('.') && !IsSpace(',') && !IsSpace('%');
    assert Count(r, '.') == Count(x4, '.');
    assert Count(r, ',') == Count(x4, ',');
    assert Count(r, '%') == Count(x4, '%');
    forall d | Plain(d)
      ensures Count(r, d) == Count(cell, d)
    {
      MapCharCount(x3, ',', '.', d);
    }
  }

  /** Line 62: the same replaces with '.' deleted before '%'. The two orders
      of deletion agree, so `load_midia` cleans every cell exactly as
      `load_kpis` does. */
  function CleanMidiaCell(cell: string): (r: string)
    ensures r == CleanKpiCell(cell)
  {
    var x1 := Replace(cell, "R$", "", -1);
    DeleteDeleteMap(x1, '%', '.');
    DeleteDeleteMap(x1, '.', '%');
    WithoutCommutes(x1, '%', '.');
    Strip(Replace(Replace(Replace(x1, ".", "", -1), "%", "", -1), ",", ".", -1))
  }

  lemma DropCurrencySign(p: string)
    requires 'R' !in p
    ensures Replace("R$ " + p, "R$", "", -1) == " " + p
  {
    assert ("R$ " + p)[2..] == " " + p;
    assert 'R' !in " " + p;
    ReplaceNoMatch(" " + p, "R$", "", -1);
  }

  lemma CleanFrame(g: string, ds: string, dd: string)
    requires forall i :: 0 <= i < |g| ==> g[i] == '.' || IsDigit(g[i])
    requires Without(g, '.') == ds && AllDigits(ds) && |ds| > 0 && AllDigits(dd) && |dd| > 0
    ensures CleanKpiCell("R$ " + g + "," + dd) == ds + "." + dd
  {
    NoLetterR(g, dd);
    DeleteMarks(g, ds, dd);
    PlainFramed(ds, dd);
    CleanFramed(g + "," + dd, " " + ds + "," + dd, ds + "." + dd);
    Regroup("R$ ", g, ",", dd);
  }

  lemma PlainFramed(ds: string, dd: string)
    requires AllDigits(ds) && |ds| > 0 && AllDigits(dd) && |dd| > 0
    ensures Strip(MapChar(" " + ds + "," + dd, ',', '.')) == ds + "." + dd
  {
    var plain := ds + "." + dd;
    MapDecimalComma(ds, dd);
    assert IsDigit(plain[0]) && IsDigit(plain[|plain| - 1]);
    StripFramed(plain);
  }

  /** A grouped whole part, ',' and digits hold no 'R', so "R$" is never matched in them. */
  lemma NoLetterR(g: string, dd: string)
    requires forall i :: 0 <= i < |g| ==> g[i] == '.' || IsDigit(g[i])
    requires AllDigits(dd)
    ensures 'R' !in g + "," + dd
  {
    var p := g + "," + dd;
    assert forall i :: 0 <= i < |p| ==> p[i] != 'R';
  }

  lemma MapDecimalComma(ds: string, dd: string)
    requires AllDigits(ds) && AllDigits(dd)
    ensures MapChar(" " + ds + "," + dd, ',', '.') == " " + (ds + "." + dd)
  {
  }

  /** Text starting with a non-space and ending with a non-space loses
      exactly one leading space to `strip`. */
  lemma StripFramed(t: string)
    requires |t| > 0 && !IsSpace(t[0]) && !IsSpace(t[|t| - 1])
    ensures Strip(" " + t) == t
  {
    assert (" " + t)[1..] == t;
  }

  lemma CleanFramed(p: string, x3: string, plain: string)
    requires 'R' !in p
    requires Without(Without(" " + p, '%'), '.') == x3
    requires Strip(MapChar(x3, ',', '.')) == plain
    ensures CleanKpiCell("R$ " + p) == plain
  {
    DropCurrencySign(p);
  }

  lemma DeleteMarks(g: string, ds: string, dd: string)
    requires forall i :: 0 <= i < |g| ==> g[i] == '.' || IsDigit(g[i])
    requires Without(g, '.') == ds && AllDigits(dd)
    ensures Without(Without(" " + (g + "," + dd), '%'), '.') == " " + ds + "," + dd
  {
    NoPercent(g, dd);
    DeletePoints(g, ds, dd);
  }

  lemma NoPercent(g: string, dd: string)
    requires forall i :: 0 <= i < |g| ==> g[i] == '.' || IsDigit(g[i])
    requires AllDigits(dd)
    ensures Without(" " + (g + "," + dd), '%') == " " + (g + "," + dd)
  {
    var x1 := " " + (g + "," + dd);
    assert forall i :: 0 <= i < |x1| ==> x1[i] != '%';
    WithoutAbsent(x1, '%');
  }

  lemma DeletePoints(g: string, ds: string, dd: string)
    requires Without(g, '.') == ds && AllDigits(dd)
    ensures Without(" " + (g + "," + dd), '.') == " " + ds + "," + dd
  {
    var tail := "," + dd;
    assert Without(tail, '.') == tail by {
      assert forall i :: 0 <= i < |tail| ==> tail[i] != '.';
      WithoutAbsent(tail, '.');
    }
    assert " " + (g + "," + dd) == [' '] + (g + tail);
    Prepend(' ', g, tail, '.');
    assert [' '] + ds + tail == " " + ds + "," + dd;
  }

  /** Deleting from one non-deleted character, a prefix and a suffix. */
  lemma Prepend(c: char, g: string, tail: string, d: char)
    requires c != d
    ensures Without([c] + (g + tail), d) == [c] + Without(g, d) + Without(tail, d)
  {
    WithoutAppend(g, tail, d);
    var s := [c] + (g + tail);
    assert s[0] == c && s[1..] == g + tail;
    assert Without(s, d) == [c] + Without(g + tail, d);
    assert [c] + (Without(g, d) + Without(tail, d)) == [c] + Without(g, d) + Without(tail, d);
  }

  /** The pt-BR rendering of an amount cleans to its two-decimal text:
      "R$ 1.234,56" becomes "1234.56". */
  lemma CleansRenderedAmount(cents: nat)
    ensures CleanKpiCell(RenderCents(cents)) == Fixed2(cents)
  {
    var ds, dd := NatToDigits(cents / 100), TwoDigits(cents % 100);
    assert RenderCents(cents) == "R$ " + GroupThousands(ds, '.') + "," + dd;
    assert Fixed2(cents) == ds + "." + dd;
    CleanFrame(GroupThousands(ds, '.'), ds, dd);
  }

  /** Cleaning a rendered amount and reading the result back gives the amount. */
  lemma CleanedAmountReadsBack(cents: nat)
    ensures DigitsAndDots(CleanKpiCell(RenderCents(cents)))
    ensures FloatOfPlain(CleanKpiCell(RenderCents(cents))) == Some(Decimal(cents, 2))
  {
    CleansRenderedAmount(cents);
  }
}
