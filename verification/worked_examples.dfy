/** Worked examples on concrete inputs, each derived from the general lemmas
    of the other modules. */
module Examples {
  import opened Text
  import opened Numbers
  import opened Currency
  import Cleanup
  import CurrencyFix
  import Percentage

  lemma Digits1234()
    ensures NatToDigits(1234) == "1234"
  {
    assert NatToDigits(1) == "1";
    assert NatToDigits(12) == "12";
    assert NatToDigits(123) == "123";
  }

  lemma Group1234()
    ensures GroupThousands("1234", ',') == "1,234"
    ensures GroupThousands("1234", '.') == "1.234"
  {
    assert "1234"[..1] == "1";
    assert "1234"[1..] == "234";
  }

  lemma Grouped123456()
    ensures GroupedFixed2(123456) == "1,234.56"
  {
    assert 123456 / 100 == 1234 && 123456 % 100 == 56;
    Digits1234();
    Group1234();
    assert TwoDigits(56) == "56";
    assert GroupedFixed2(123456) == GroupThousands("1234", ',') + "." + TwoDigits(56);
  }

  lemma Rendered123456()
    ensures RenderCents(123456) == "R$ 1.234,56"
  {
    Number123456();
  }

  /** "1,234.56" (en-US) becomes "R$ 1.234,56". */
  lemma EnUsExample()
    ensures FormatCurrency("1,234.56") == "R$ 1.234,56"
  {
    Grouped123456();
    Rendered123456();
    EnUsAmountRenders(123456);
  }

  /** "1.234,56" (pt-BR) gives "N/A". */
  lemma PtBrExample()
    ensures FormatCurrency("1.234,56") == "N/A"
    ensures FormatCurrency("R$ 1.234,56") == "N/A"
  {
    Rendered123456();
    PtBrAmountRejected(123456);
    KeptPtBr();
    Number123456();
    RenderedKept(123456);
    SameKept("1.234,56", RenderCents(123456));
  }

  lemma Rendered4590()
    ensures RenderCents(4590) == "R$ 45,90"
  {
    assert 4590 / 100 == 45 && 4590 % 100 == 90;
    assert NatToDigits(4) == "4";
    assert NatToDigits(45) == "45";
    assert TwoDigits(90) == "90";
    assert RenderCents(4590) == "R$ " + GroupThousands("45", '.') + "," + TwoDigits(90);
  }

  lemma Digits4590()
    ensures NatToDigits(4590) == "4590"
  {
    assert NatToDigits(4) == "4";
    assert NatToDigits(45) == "45";
    assert NatToDigits(459) == "459";
  }

  lemma Group4590()
    ensures GroupThousands("4590", '.') == "4.590"
  {
    assert "4590"[..1] == "4" && "4590"[1..] == "590";
  }

  lemma Rendered459000()
    ensures RenderCents(459000) == "R$ 4.590,00"
  {
    assert 459000 / 100 == 4590 && 459000 % 100 == 0;
    Digits4590();
    Group4590();
    assert TwoDigits(0) == "00";
    assert RenderCents(459000) == "R$ " + GroupThousands("4590", '.') + "," + TwoDigits(0);
  }

  /** "R$ 45,90" loses its decimal comma at line 13 and comes out a hundred
      times larger. */
  lemma CommaOnlyExample()
    ensures FormatCurrency("R$ 45,90") == "R$ 4.590,00"
  {
    Rendered4590();
    Rendered459000();
    SmallPtBrAmountScaled(4590);
  }

  /** Text without digits gives "N/A": an empty cell, a word, Python's `str(None)`. */
  lemma NoDigitsExample(text: string)
    requires text in {"", "abc", "None"}
    ensures FormatCurrency(text) == "N/A"
  {
    assert forall i :: 0 <= i < |text| ==> !IsDigit(text[i]);
    FormatCurrencyNA(text);
  }

  lemma ReadFive()
    ensures Normalise(KeepNumeric("5.0")) == "5.0"
    ensures FloatOfPlain("5.0") == Some(Decimal(50, 1))
  {
    PlainNormalises("5", "0");
    assert "5" + "." + "0" == "5.0";
    ReadPointed("5", "0");
    assert "5" + "0" == "50";
    assert DigitsValue("50") == 50;
  }

  lemma Rendered500()
    ensures RenderCents(500) == "R$ 5,00"
  {
    assert 500 / 100 == 5 && 500 % 100 == 0;
    assert NatToDigits(5) == "5";
    assert TwoDigits(0) == "00";
    assert RenderCents(500) == "R$ " + GroupThousands("5", '.') + "," + TwoDigits(0);
  }

  lemma FiveRenders()
    ensures FormatCurrency("5.0") == RenderCents(500)
  {
    ReadFive();
    assert RoundToCents(Decimal(50, 1)) == 500 by {
      ExactRounding(Decimal(50, 1));
      assert Pow10(1) == 10;
    }
  }

  /** The sign is filtered out: "-5.0" renders as "R$ 5,00". */
  lemma NegativeExample()
    ensures FormatCurrency("-5.0") == "R$ 5,00"
  {
    SignDropped("5.0");
    FiveRenders();
    Rendered500();
  }

  lemma Fixed123456()
    ensures Fixed2(123456) == "1234.56"
  {
    assert 123456 / 100 == 1234 && 123456 % 100 == 56;
    Digits1234();
    assert TwoDigits(56) == "56";
  }

  /** The KPI cleanup turns "R$ 1.234,56" into "1234.56". */
  lemma KpiCellExample()
    ensures Cleanup.CleanKpiCell("R$ 1.234,56") == "1234.56"
  {
    Rendered123456();
    Fixed123456();
    Cleanup.CleansRenderedAmount(123456);
  }

  lemma KeptPtBr()
    ensures KeepNumeric("1.234,56") == "1.234,56"
  {
    assert AllKept("1.234,56");
    KeepNumericKeepsAll("1.234,56");
  }

  lemma Number123456()
    ensures PtBrNumber(123456) == "1.234,56"
  {
    assert 123456 / 100 == 1234 && 123456 % 100 == 56;
    Digits1234();
    Group1234();
    assert TwoDigits(56) == "56";
    assert PtBrNumber(123456) == GroupThousands("1234", '.') + "," + TwoDigits(56);
  }

  /** Both formatters see a text only through what line 7 keeps of it. */
  lemma SameKept(a: string, b: string)
    requires KeepNumeric(a) == KeepNumeric(b)
    ensures FormatCurrency(a) == FormatCurrency(b)
    ensures CurrencyFix.FormatCurrencyIntended(a) == CurrencyFix.FormatCurrencyIntended(b)
  {
  }

  /** The corrected formatter reads "1.234,56" as 1234.56. */
  lemma PtBrExampleIntended()
    ensures CurrencyFix.FormatCurrencyIntended("1.234,56") == "R$ 1.234,56"
  {
    Rendered123456();
    CurrencyFix.PtBrAmountRoundTrips(123456);
    KeptPtBr();
    Number123456();
    RenderedKept(123456);
    SameKept("1.234,56", RenderCents(123456));
  }

  /** `format_percentage` of a text `float()` rejects, and of an infinity. */
  lemma PercentageExamples()
    ensures Percentage.FormatPercentage(None) == "N/A"
    ensures Percentage.FormatPercentage(Some(Percentage.Infinite(true))) == "-inf%"
  {
    assert Percentage.SignText(true) + "inf" + "%" == "-inf%";
  }
}
