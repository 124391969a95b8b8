/** `format_percentage` (utils.py lines 21-27): `float(value)` then the
    f-string `:.2f` followed by '%', or "N/A" when the conversion raises a
    caught exception. */
module Percentage {
  import opened Text
  import opened Numbers

  /** What `float(value)` can yield: a finite value (sign and exact
      magnitude), an infinity, or NaN. */
  datatype FloatValue = Finite(negative: bool, magnitude: Decimal) | Infinite(negative: bool) | NotANumber

  function SignText(negative: bool): string
  {
    if negative then "-" else ""
  }

  /** Python's `format(x, '.2f')`: the sign (kept even when the value rounds
      to zero), then the magnitude to two decimals; "inf" and "nan" for the
      non-finite values. */
  function FormatFixed2(v: FloatValue): (r: string)
    ensures '%' !in r && |r| >= 3
  {
    match v
    case Finite(negative, m) =>
      var cents := RoundToCents(m);
      assert '%' !in Fixed2(cents);
      SignText(negative) + Fixed2(cents)
    case Infinite(negative) => SignText(negative) + "inf"
    case NotANumber => "nan"
  }

  /** `format_percentage(value)`, with `converted` the outcome of
      `float(value)`: `None` when it raises one of the exceptions line 26
      catches (`ValueError`, `TypeError`, `AttributeError`). An
      `OverflowError` (from `float` of a huge integer) is not caught there
      and has no outcome here. */
  function FormatPercentage(converted: Option<FloatValue>): (r: string)
    ensures r == "N/A" <==> converted.None?
    ensures converted.Some? ==> |r| >= 4 && r[|r| - 1] == '%' && Count(r, '%') == 1
  {
    match converted
    case None => "N/A"
    case Some(v) =>
      var t := FormatFixed2(v);
      CountPositive(t, '%');
      CountAppend(t, "%", '%');
      t + "%"
  }

  /** The text before the '%' starts with '-' exactly for a negative value,
      and the rest reads back with `float()` as the value rounded to the
      nearest hundredth. */
  lemma PercentageReadsBack(negative: bool, m: Decimal)
    ensures var r := FormatPercentage(Some(Finite(negative, m)));
      var body := r[|SignText(negative)|..|r| - 1];
      && (r[0] == '-' <==> negative)
      && DigitsAndDots(body)
      && FloatOfPlain(body) == Some(Decimal(RoundToCents(m), 2))
  {
    var cents := RoundToCents(m);
    var r := FormatPercentage(Some(Finite(negative, m)));
    assert r == SignText(negative) + Fixed2(cents) + "%";
    assert r[|SignText(negative)|..|r| - 1] == Fixed2(cents);
    assert IsDigit(Fixed2(cents)[0]);
  }
}
