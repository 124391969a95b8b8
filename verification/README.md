# Brazilian currency and percentage formatting, modelled in Dafny

The dashboard shows its metrics through a handful of helpers in `utils.py`:

- `format_currency` renders a value as a Brazilian amount ("R$ 1.234,56"). It takes `str(value)` and keeps only digits, '.' and ','. It then guesses which separator is the decimal mark, reads the result with `float()`, formats it with `:,.2f`, and swaps the separators. Any failure gives "N/A".
- `format_percentage` renders `float(value)` with `:.2f` and a '%' sign, or "N/A". A NaN is written without a sign, as CPython's float formatting writes it.
- `load_kpis` and `load_midia` clean a pt-BR cell ("R$ 1.234,56", "12,5%") into plain text before `pd.to_numeric`. They delete "R$", '%' and every '.', turn ',' into '.', and strip whitespace.

The model is split into modules that follow these steps:

- `Text` (text.dfy): the Python string operations involved, over `seq<char>`. These are `str.replace` with its count argument, `str.rfind`, `str.strip` with Python's whitespace set, and occurrence counts. Lemmas characterise the `replace` patterns the code uses: one-character deletes and maps exactly, and the "R$" delete by the counts it keeps and on the frame of a rendered amount.
- `Numbers` (numbers.dfy): exact decimals, and `float()` on strings of ASCII digits and '.' (the only strings `format_currency` can hand to it). It also covers round-half-even to hundredths, PEP 378 thousands grouping, and the `:.2f` / `:,.2f` renderings.
- `Currency` (currency.dfy): `format_currency` step by step, the placeholder swap of line 17, and what the formatter does with the amounts it prints itself.
- `CurrencyFix` (currency_fix.dfy): the pt-BR branch as its comment describes it (see Findings).
- `Cleanup` (cleanup.dfy): the KPI and media-channel cell cleanups.
- `Percentage` (percentage.dfy): `format_percentage`.
- `Examples` (worked_examples.dfy): concrete inputs, derived from the general lemmas.

Where the code and its own comments disagree, the model follows the code:

- The comment on line 8 promises to handle '.' as a thousands mark with ',' as the decimal mark, or the reverse. The comment on line 10 names "1.234,56" as the pt-BR case. Line 11 leaves two dots in that text, so the formatter gives "N/A"; this is the finding below.
- The comment on line 35 says ',' is a thousands mark and '.' is kept. Lines 39-40 do the opposite: they delete '.' and turn ',' into '.'. The model follows lines 39-40.

Line 13 deletes a lone ',' as a thousands mark, as its comment says. So the formatter's own "R$ 45,90" comes back as "R$ 4.590,00" (`Currency.SmallPtBrAmountScaled`).

## Model

| member | source | states |
|---|---|---|
| Text.Replace | utils.py:11 | with a non-empty pattern, a replacement no longer than the pattern never lengthens the text, and one of the same length keeps its length |
| Text.ReplaceCharByChar | utils.py:17 | `replace(a, b)` with one-character arguments and no count maps every `a` to `b` and touches nothing else |
| Text.ReplaceDeletesAll | utils.py:13 | `replace(a, "")` deletes every `a`, keeping the other characters in order |
| Text.ReplaceDeletesFirst | utils.py:11 | `replace('.', '', n)` deletes exactly the first `n` dots: the result is a prefix of the text holding `n` dots (all of them if there are fewer), with its dots removed, followed by the untouched rest of the text |
| Text.DeletePairCount | utils.py:37 | deleting the two-character pattern "R$" keeps the count of every character other than 'R' and '$' |
| Text.RFind | utils.py:10 | `rfind` is -1 exactly when the character is absent; otherwise it points at an occurrence with none after it |
| Text.Strip | utils.py:41 | `strip()` keeps one contiguous slice of the text, with only whitespace cut from either end and none at the new ends, so no interior character is removed |
| Numbers.FloatOfPlain | utils.py:15 | `float()` of a digits-and-dots string succeeds exactly when it has a digit and at most one '.' |
| Numbers.ReadPointed | utils.py:15 | `float()` of "digits.digits" is all the digits read as one number, scaled down by the digits after the '.' |
| Numbers.ReadWhole | utils.py:15 | `float()` of a string of digits is that whole number |
| Numbers.RoundToCents | utils.py:17 | the value rounded by `.2f` is a nearest hundredth to the exact value, even on a tie |
| Numbers.HalfEven | utils.py:17 | rounding a quotient to a whole number lands within half a unit, on the even neighbour for a tie |
| Numbers.ExactRounding | utils.py:17 | with at most two fraction digits the rounding changes nothing |
| Numbers.GroupThousands | utils.py:17 | `,` grouping puts the separator at exactly every fourth place from the right, loses no digit, and adds none under four digits |
| Numbers.Fixed2 | utils.py:25 | `:.2f` writes the whole part, '.' and two digits, and the whole part has no leading zero other than a lone "0"; `float()` reads that text back as exactly the same number of hundredths |
| Numbers.GroupedFixed2 | utils.py:17 | `:,.2f` is the `:.2f` text with grouping commas inserted: before the '.' a ',' sits at exactly every fourth position counted from the right, no group is empty, and deleting the commas gives the `:.2f` text back |
| Currency.KeepNumeric | utils.py:7 | the filter keeps digits, '.' and ',' with their multiplicities and drops everything else |
| Currency.BranchByLastComma | utils.py:9-10 | the pt-BR branch is taken exactly when some ',' has a '.' before it and no '.' after it |
| Currency.SignDropped | utils.py:7 | a leading '-' never reaches `float()`: a negative value renders as its magnitude |
| Currency.PtBrStep | utils.py:11 | the pt-BR branch leaves one '.' more than there were ',' and no ',' at all; other characters are kept |
| Currency.Normalise | utils.py:9-13 | what reaches `float()` is digits and dots only, with every digit kept |
| Currency.NormaliseEnUs | utils.py:9-13 | outside the pt-BR branch, normalising only deletes the commas |
| Currency.NormalisePtBr | utils.py:10-11 | inside the pt-BR branch at least two dots reach `float()`, so it always fails |
| Currency.PlaceholderSwap | utils.py:17 | the three replaces through 'X' exchange ',' and '.' on any text without an 'X' |
| Currency.Line17 | utils.py:17 | line 17 turns the en-US rendering of an amount into its pt-BR rendering ("R$ ", '.'-grouped whole part, ',', two digits) |
| Currency.RenderCentsShape | utils.py:17 | a rendered amount is "R$ ", a '.'-grouped whole part without a leading zero, ',' and two digits |
| Currency.Convert | utils.py:15-19 | "N/A" exactly when `float()` fails; otherwise the pt-BR rendering of the value `float()` read, rounded to cents |
| Currency.FormatCurrency | utils.py:5-19 | every result is "N/A" or a well-formed pt-BR amount, so no result is negative |
| Currency.FormatCurrencyNA | utils.py:5-19 | the result is "N/A" exactly when the text has no digit, has two or more dots, or takes the pt-BR branch |
| Currency.ReadsCents | utils.py:15-17 | a value with two decimals rounds to itself |
| Currency.EnUsAmountRenders | utils.py:5-19 | en-US text such as "1,234.56" renders as the same amount in pt-BR |
| Currency.PlainAmountRenders | utils.py:5-19 | plain two-decimal text such as "1234.56" renders as that amount |
| Currency.LargeTakesPtBr | utils.py:9-10 | a pt-BR amount of 1.000,00 or more takes the pt-BR branch |
| Currency.PtBrAmountRejected | utils.py:10-11 | the formatter gives "N/A" on its own output for every amount of 1.000,00 or more |
| Currency.SmallPtBrAmountScaled | utils.py:13 | on its own output below 1.000,00 the formatter gives a hundred times the amount |
| CurrencyFix.NormaliseIntended | utils.py:10-11 | the corrected branch leaves exactly one '.' per ',', and outside the branch nothing changes |
| CurrencyFix.FormatCurrencyIntended | utils.py:5-19 | the corrected formatter agrees with the original outside the pt-BR branch |
| CurrencyFix.PtBrAmountRoundTrips | utils.py:10-11 | the corrected formatter maps its own output of 1.000,00 or more back to itself |
| Cleanup.CleanKpiCell | utils.py:37-41 | the cleanup deletes "R$", then every '%', then every '.', maps each ',' to '.' in place and strips the ends, so a cell without "R$" and '%' cleans to `Strip(MapChar(Without(cell, '.'), ',', '.'))`; the result has no '%', no ',' and no surrounding whitespace, one '.' per ',' of the cell, and every other ordinary character keeps its count |
| Cleanup.CleanMidiaCell | utils.py:62 | the media-channel cleanup, which deletes '.' before '%', cleans every cell exactly as the KPI cleanup does |
| Cleanup.CleansRenderedAmount | utils.py:37-41 | the cleanup turns a rendered pt-BR amount into its plain two-decimal text |
| Cleanup.CleanedAmountReadsBack | utils.py:36-41 | a cleaned pt-BR amount reads back as exactly that amount |
| Percentage.FormatFixed2 | utils.py:25 | `.2f` output never holds a '%' |
| Percentage.FormatPercentage | utils.py:21-27 | "N/A" exactly when `float()` raises one of the caught exceptions; otherwise the text ends in its only '%' |
| Percentage.PercentageReadsBack | utils.py:24-25 | a finite percentage starts with '-' exactly when negative, and its number reads back as the value rounded to hundredths |
| Examples.EnUsExample | utils.py:5-19 | "1,234.56" renders as "R$ 1.234,56" |
| Examples.PtBrExample | utils.py:10-11 | "1.234,56" and "R$ 1.234,56" both give "N/A" |
| Examples.CommaOnlyExample | utils.py:13 | "R$ 45,90" renders as "R$ 4.590,00" |
| Examples.NoDigitsExample | utils.py:15-19 | "", "abc" and "None" give "N/A" |
| Examples.NegativeExample | utils.py:7 | "-5.0" renders as "R$ 5,00" |
| Examples.KpiCellExample | utils.py:37-41 | the KPI cleanup turns "R$ 1.234,56" into "1234.56" |
| Examples.PtBrExampleIntended | utils.py:10-11 | the corrected formatter renders "1.234,56" as "R$ 1.234,56" |
| Examples.PercentageExamples | utils.py:21-27 | a failed conversion gives "N/A", and negative infinity gives "-inf%" |

## Left out

- `str(value)`: `format_currency` is modelled on the text `str(value)`, not on Python values. The `TypeError`/`AttributeError` paths cannot arise once that text exists.
- Numbers.FloatOfPlain: models `float()` only on strings of ASCII digits and '.'. Signs, exponents, "inf"/"nan", underscores and surrounding whitespace never reach it in `format_currency`, so the full grammar is left out. The value is the exact decimal the text denotes, not the nearest binary double.
- Numbers.RoundToCents: rounds the exact decimal half-to-even, while Python rounds the binary double it holds. The two differ in three ways. With three or more decimals, a tie such as "2.675" is held as 2.67499… and printed "2.67", where the model gives 2.68. Every double holds a hundredth such as 0.10 only approximately, but below 2^46 (about 7.04·10^13) the nearest double to a whole number of hundredths always rounds back to that same hundredth. From 2^46 on it may not: "70368744177664.01" is held as …664.015625 and printed with ",02". From 2^53 (about 9.01·10^15) whole numbers are rounded too: "9007199254740993" prints as "…992,00". Overflow to `inf` for a value of about 1.8·10^308 or more (a whole part of more than about 308 significant digits) is also not modelled.
- Currency.FormatCurrency: a text whose value is about 1.8·10^308 or more (a whole part of more than about 308 significant digits; leading zeros and fraction digits do not count) reaches `float()` as infinity in Python, and `format_currency` then returns "R$ inf". The model reads it as the exact number and renders that number, so its "N/A or a well-formed amount" promise does not hold in Python for such texts (see Numbers.RoundToCents).
- Numbers.Fixed2: the model reads the text back as exactly `cents` hundredths. Python yields the nearest double to `cents`/100, which rounds back to `cents` hundredths only below 2^46 (see Numbers.RoundToCents).
- Currency.EnUsAmountRenders: the text round trip holds in Python only for amounts below 2^46, where the nearest double rounds back to the same hundredth (see Numbers.RoundToCents).
- Currency.PlainAmountRenders: the text round trip holds in Python only for amounts below 2^46, where the nearest double rounds back to the same hundredth (see Numbers.RoundToCents).
- CurrencyFix.PtBrAmountRoundTrips: the text round trip holds in Python only for amounts below 2^46, where the nearest double rounds back to the same hundredth (see Numbers.RoundToCents).
- Cleanup.CleanedAmountReadsBack: the model reads the cleaned text back as exactly `cents` hundredths. Python yields the nearest double to `cents`/100, which rounds back to `cents` hundredths only below 2^46 (see Numbers.RoundToCents).
- Percentage.FormatPercentage: takes the outcome of `float(value)` as a parameter and does not parse `value` itself. `None` stands for the exceptions line 26 catches. `float` of an integer beyond about 1.8·10^308 raises `OverflowError`, which line 26 does not catch, so `format_percentage` raises where the model has no outcome.
- `str.isdigit` is modelled for ASCII digits only. Other Unicode digits are dropped by the filter in the model but kept by Python, and `float()` then accepts some of them.
- `pd.to_numeric` is a pandas parser and is not part of this model. The cleaned cells are read back with the modelled `float()`, which agrees with it on plain "digits.digits" text.
- CSV loading, pandas data frames, caching, Streamlit pages, charts, `load_performance`, `load_perda` and `convert_df_to_csv` are I/O or presentation and are left out.

## Findings

| source | as written | input that shows it | evidently intended | confidence | as-written member | corrected member |
|---|---|---|---|---|---|---|
| utils.py:11 | `replace('.', '', count('.') - 1)` keeps the last '.', then every ',' becomes a second '.', so `float()` always fails in the pt-BR branch | "1.234,56" (or the formatter's own "R$ 1.234,56") gives "N/A" | delete every '.' as a thousands mark so that "1.234,56" reads as 1234.56, as the comment on line 10 says | not executed | Currency.PtBrAmountRejected | CurrencyFix.PtBrAmountRoundTrips |
