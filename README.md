# Number formatting of `covid/utils.py`, modelled in Dafny

This project models the number-formatting core of `covid/utils.py`, plus its string helper `indent`, and proves properties of it:

- **`rpartition(seq, n)`** cuts a sequence into groups of `n`, counted from the right. It is modelled twice: as the loop the source runs (`Grouping.RPartitionLoop`, with loop invariants), and as a recursive specification function (`Grouping.RPartition`). The method is proved equal to the function.
- **`_fix_int(s, n)`** joins those groups with commas (`Grouping.FixInt`).
- **`_fmt_aux(n, suffix)`** matches the printed form of a number against `N_RE = (-?)(\d+)(\.\d{,2})?\d*` and rebuilds it as sign, grouped digits, at most two decimals and the suffix.
  - The regular expression is replaced by a greedy scanner (`Magnitude.MatchNumber`).
  - `_fmt_aux` is modelled on the printed text (`Magnitude.FmtAux`).
- **`fmt(n)`** is modelled as `Format.Fmt` on a `Value`, which is either `Scalar(n)` or `Seq(items)`. It picks a rendering by half-open bands of `abs(n)`, and a sequence is the `", "`-join of its items.
- **`pc`, `pm` and `p10k`** return a fixed literal for zero. Otherwise they format the scaled value and append `%`, `‰` or `‱` (`Format.Ratio`).
- **`indent(st, indent)`** prefixes every line of `st`, keeping line terminators (`Indentation.Indent`).

Files:

- `Options.dfy`: `Option`.
- `Strings.dfy`: `"".join`, `sep.join`, reversal, `count`, and deleting a character.
- `Decimal.dfy`: `str` of an `int`.
- `Grouping.dfy`, `Magnitude.dfy`, `Format.dfy` and `Indent.dfy`: the four parts of the core.

Modelling choices:

- **Numbers.** A Python number is `Int(i)` or `Float(x)`, where `x` is the exact real value of a finite float.
  - `abs(n)` and the band comparisons are exact on these values.
  - Python compares an `int` with a `float` exactly. The literals `0.0` and `0.001` are floats, and every other comparison constant has an integer value. `0.0` is exactly zero. The literal `0.001` is a double slightly above the real 0.001, and no double lies strictly between the two, so comparing exact values with the real 0.001 puts every float on the same side as Python does. For an `int` the two constants agree as well, since no integer lies between them.
- **Values past the float range.** An `int` whose magnitude reaches 2^1024 - 2^970 passes every band test and reaches `"%e" % n`, which raises `OverflowError` because the `int` does not convert to a float. `fmt` returns `None` there (`Format.FmtLarge`, `Format.FmtOverflowBoundary`).
- **Float printing and float arithmetic.** These are the fields of a `FloatOps` value, which every float band is stated relative to:
  - `"%.2e"`, `"%e"`, `f"{float(n):.2f}"` and `str(x)`;
  - `n / 1e6`, `n / 1e9` and `k * x`.
- **Exact bands.** For an `int` below 100 000 no float is involved, and the model is exact string manipulation.
- **Failed match.** The source raises `AttributeError` (on `None.groups()`) when the pattern does not match. The model returns `None` there, as for the `OverflowError` above, and `fmt` of a sequence fails when one of its items does.
- **Default argument.** `indent`'s default of 4 is `Indentation.IndentDefault`.

Results of the code worth stating outright:

- `pc(0.5)` computes `fmt(50.0)`. For a float in the 0.001–1000 band that is `f"{50.0:.2f}"`, so the result is `"50.00%"` (`Format.PcHalf`), while `pc(0)` is the one-decimal literal `"0.0%"`.
- `fmt(2000000)` prints `str(2000000 / 1e6)`, which is `"2.0"`. The result is `"2.0mi"`: `_fmt_aux` truncates the decimals and never pads them (`Format.FmtTwoMillion`, `Format.FmtSeqExample`).
- `splitlines(keepends=True)` opens no empty line after a final `'\n'`. It is modelled that way (`Indentation.SplitLines`, `Indentation.SplitLinesCount`).

## Model

| member | source | states |
|---|---|---|
| `Grouping.RPartitionLoop` | covid/utils.py:48-61 | The pop-into-batch loop, with its inner bounded loop and `break`, returns exactly the groups of `rpartition` as the recursive definition gives them. |
| `Grouping.RPartitionConcat` | covid/utils.py:52-61 | The groups, concatenated in order, give back the input. |
| `Grouping.RPartitionShape` | covid/utils.py:54-61 | There are no groups exactly when the input is empty. Every group but the first has exactly `n` elements, and the first has 1 to `n`. The total length is the first group's length plus `n` per further group. |
| `Grouping.RPartitionUnique` | covid/utils.py:48-61 | Any groups of those sizes that concatenate to `s` are exactly the groups `rpartition(s, n)` returns. |
| `Grouping.RPartitionSplit` | covid/utils.py:54-60 | One round of the outer loop: popping `n` elements, or all that remain, splits off the last group. |
| `Grouping.FixIntProperties` | covid/utils.py:44-45 | On a nonempty comma-free string: deleting the commas gives the string back, there are `(len(s) - 1) / n` commas, and every comma has a non-comma on each side (none at either end, none adjacent). |
| `Grouping.FixIntShort` | covid/utils.py:44-45 | One to three characters need no comma. |
| `Grouping.FixIntOneComma` | covid/utils.py:44-45 | Four to six characters get exactly one comma, three characters from the right. |
| `Decimal.ValueOfDigitsOf` | covid/utils.py:26 | The digits `str` prints for a natural number denote that number. |
| `Decimal.DigitsOfValueOf` | covid/utils.py:26 | A digit string without leading zeros is what `str` prints for the number it denotes. |
| `Decimal.DigitsOfLength` | covid/utils.py:24-28 | A number has at most `k` digits exactly when it is below `10^k`; this links the magnitude bands to digit counts. |
| `Magnitude.DigitPrefix` | covid/utils.py:6 | The greedy `\d+` scan takes a prefix of digits and stops only at a non-digit or at the end. |
| `Magnitude.OptionalSign` | covid/utils.py:6 | `-?` takes a minus sign exactly when the text starts with one. |
| `Magnitude.DecimalGroup` | covid/utils.py:6 | `(\.\d{,2})?` is present exactly when a point comes next. It is then a point and at most two digits, and it stops before two digits only when no digit follows. |
| `Magnitude.MatchNumberFails` | covid/utils.py:39-40 | The match fails exactly when no digit opens the text after an optional `-`. |
| `Magnitude.MatchNumberInteger` | covid/utils.py:6 | A match takes the sign from a leading `-`, and takes the whole digit run after it as the integer group. |
| `Magnitude.MatchNumberDecimal` | covid/utils.py:6 | The decimal group is present exactly when a point follows the integer digits. It has at most two digits, it is cut short only by a non-digit, and the match is a prefix of the text. |
| `Magnitude.FmtAux` | covid/utils.py:38-41 | The result fails exactly when the match fails; otherwise it ends with the suffix. |
| `Magnitude.FmtAuxSuffix` | covid/utils.py:38-41 | Appending text to the result of `_fmt_aux` is the same as passing a suffix that much longer, and a failed match stays failed. |
| `Magnitude.FmtAuxDecimal` | covid/utils.py:38-41 | On a decimal `-?d+(.d*)?` the result is the sign, the comma-grouped integer digits, then a point with the first two fraction digits if the input has a point (truncated, not rounded or padded), then the suffix. An input without a point gets no decimal part. |
| `Magnitude.FmtAuxSign` | covid/utils.py:38-41 | On a decimal, the result starts with `-` exactly when the input does. |
| `Magnitude.FmtAuxTruncates` | covid/utils.py:38-41 | `"0.999"` with suffix `"mi"` becomes `"0.99mi"`: nothing is rounded up. |
| `Magnitude.FmtAuxGroupsInteger` | covid/utils.py:38-41 | `"12345"` becomes `"12,345"`, with no decimal part. |
| `Magnitude.FmtAuxNoMatch` | covid/utils.py:39-40 | `"nan"`, `"-"`, `""` and `".5"` do not match, so `_fmt_aux` fails on them. |
| `Format.FmtZero` | covid/utils.py:19-21 | Zero, as an `int` or a `float`, is `"0"`. |
| `Format.FmtIntSmall` | covid/utils.py:24-26 | An `int` with `0 < abs(i) < 1000` is printed as `str(i)`, which is also its single-group form. |
| `Format.GroupedThousands` | covid/utils.py:28-29 | For `1000 <= abs(i) < 100000`, `_fmt_aux(str(i))` is the sign, then four or five digits with one comma three digits from the right. |
| `Format.FmtIntThousands` | covid/utils.py:28-29 | An `int` with `1000 <= abs(i) < 100000` is formatted as its comma-grouped digits, sign kept, no decimal part. |
| `Format.FmtIntExact` | covid/utils.py:19-29 | For every `int` with `0 < abs(i) < 100000`, `fmt(i)` is the signed grouped form: `str(i)` below 1000, and exactly one comma from 1000 on. |
| `Format.GroupedIsStr` | covid/utils.py:41-45 | Deleting the commas of the grouped form gives `str(i)`. |
| `Format.FmtIntNegate` | covid/utils.py:19-29 | In the exact bands, `fmt(-i)` is `"-"` followed by `fmt(i)`. |
| `Format.FmtLarge` | covid/utils.py:32-35 | From 10^12 on, `fmt` fails exactly for an `int` of magnitude at least 2^1024 - 2^970, and otherwise is `"%e" % n`. |
| `Format.FmtOverflowBoundary` | covid/utils.py:34-35 | `fmt` fails on `2^1024 - 2^970` and its negation, prints one less with `"%e"`, and prints every float from 10^12 on with `"%e"`. |
| `Format.FmtBoundaries` | covid/utils.py:22-35 | The bands are half open: a magnitude of exactly the double `0.001` (a float), 1000, 100000, 10^9 or 10^12 is formatted by the band above it. |
| `Format.FmtInt999` | covid/utils.py:24-26 | `fmt(999)` is `"999"`. |
| `Format.FmtInt1000` | covid/utils.py:28-29 | `fmt(1000)` is `"1,000"`. |
| `Format.FmtInt99999` | covid/utils.py:28-31 | `fmt(99999)` is `"99,999"`, and 100000 is already in the `mi` band. |
| `Format.FmtFloatThousands` | covid/utils.py:28-29 | A float in the 1000–100000 band, printed as a decimal, keeps its sign, has its integer digits grouped and its fraction cut to two digits. |
| `Format.FmtScaled` | covid/utils.py:30-33 | From 100000 to 10^12 the value divided by 10^6 or 10^9 is printed and reduced the same way, followed by `mi` or `bi`. |
| `Format.FmtTwoMillion` | covid/utils.py:30-31 | When `str(2000000 / 1e6)` is `"2.0"`, `fmt(2000000)` is `"2.0mi"`. |
| `Format.JoinFormattedAll` | covid/utils.py:15 | When every item is formatted, the result is the `", "`-join of the texts. |
| `Format.JoinFormattedFails` | covid/utils.py:15 | The join fails exactly when some item fails. |
| `Format.FmtSeq` | covid/utils.py:14-15 | A sequence is formatted as the `", "`-join of its items' formats, in order. |
| `Format.FmtSeqFails` | covid/utils.py:14-15 | Formatting a sequence fails exactly when formatting one of its items fails. |
| `Format.FmtThree` | covid/utils.py:14-15 | Three items are joined with `", "` between neighbours. |
| `Format.FmtSeqExample` | covid/utils.py:14-31 | `fmt([1000, 2000000, 0])` is `"1,000, 2.0mi, 0"`. |
| `Format.RatioZero` | covid/utils.py:64-88 | Zero gives the literals `"0.0%"`, `"0.0‰"` and `"0.0‱"`, not `fmt`'s `"0"`. |
| `Format.RatioIntExact` | covid/utils.py:64-88 | For a nonzero `int` whose scaled value stays below 100000, the result is the grouped scaled value with the unit right after it, no space. |
| `Format.RatioUnits` | covid/utils.py:64-88 | For an `int` with `0 < abs(i) < 10`, `pc`, `pm` and `p10k` scale by 100, 1000 and 10000, and append `%`, `‰` and `‱` to the grouped product. |
| `Format.RatioFloat` | covid/utils.py:19-88 | For a nonzero float the band of the rounded product `k * x` picks the rendering, with the unit right after it: `"%.2e"`, two fixed decimals, or `"%e"` followed by the unit, and in the grouped bands `_fmt_aux` with the unit as a further suffix after nothing, `mi` or `bi`. |
| `Format.PcHalf` | covid/utils.py:64-70 | When `100 * 0.5` is `50.0` and `f"{50.0:.2f}"` is `"50.00"`, `pc(0.5)` is `"50.00%"`. |
| `Indentation.Spaces` | covid/utils.py:129-130 | `' ' * k` has `max(k, 0)` characters, all spaces. |
| `Indentation.PrefixOf` | covid/utils.py:129-130 | An integer indent `k` stands for `max(k, 0)` characters, all spaces; a string indent is used as it is. |
| `Indentation.LineEnd` | covid/utils.py:131 | The first line ends just after the first `'\n'`, or at the end of the text. |
| `Indentation.SplitLinesConcat` | covid/utils.py:131 | The lines, joined, give back the text, and only the empty text has no lines. |
| `Indentation.SplitLinesShape` | covid/utils.py:131 | Every line is nonempty with `'\n'` at most at its end, and every line but the last ends in `'\n'`. |
| `Indentation.SplitLinesUnique` | covid/utils.py:131 | Well-formed lines are split back into exactly themselves. |
| `Indentation.SplitLinesCount` | covid/utils.py:131 | There is one line per `'\n'`, plus one for a nonempty text that does not end in `'\n'`. |
| `Indentation.FirstLineCount` | covid/utils.py:131 | Splitting off the first line leaves one line fewer, and the `'\n'`s of the text are those of the first line (one if it ends in `'\n'`) plus those of the rest. |
| `Indentation.IndentLines` | covid/utils.py:125-131 | When the prefix holds no `'\n'`, each line of the result is the prefix followed by the corresponding line of `st`, terminator kept. |
| `Indentation.WidthHasNoBreak` | covid/utils.py:129-130 | An integer indent never holds a `'\n'`, so `IndentLines` always applies to it. |
| `Indentation.IndentStrip` | covid/utils.py:125-131 | When the prefix holds no `'\n'`, every line of the result starts with the prefix, and stripping it from each line and joining the lines recovers `st`. |
| `Indentation.StrippedPrefixed` | covid/utils.py:129-131 | Removing the prefix from each prefixed line gives back the lines, and each prefixed line starts with the prefix. |
| `Indentation.IndentPiecesStrip` | covid/utils.py:125-131 | For every prefix: the result is the join of prefix-plus-line pieces, each starts with the prefix, and stripping it from each piece and joining recovers `st`. |
| `Indentation.IndentDefaultLines` | covid/utils.py:125-131 | With the default `indent=4`, the result splits into the lines of `st`, each after four spaces. |
| `Indentation.IndentLength` | covid/utils.py:125-131 | The result is as long as `st` plus one prefix per line. |
| `Indentation.IndentEmpty` | covid/utils.py:125-131 | `indent("", ·)` is `""`. |

## Left out

- `interpolant` (covid/utils.py:91-103): a wrapper over numpy's `np.interp` on float arrays, behind `functools.lru_cache`. Foreign numeric code.
- `lru_safe_cache` (covid/utils.py:106-122): a caching decorator that copies cached objects. It is about library caching and object aliasing.
- Python's float printing (`"%.2e"`, `"%e"`, `:.2f`, `str` of a float) and float arithmetic (`n / 1e6`, `n / 1e9`, `k * x`). These are uninterpreted functions of `FloatOps`, so the float bands are proved relative to them, not to IEEE 754 rounding.
- NaN, infinities, `bool` and numpy scalars as inputs of `fmt`, `pc`, `pm` and `p10k`.
- Detecting an iterable with `TypeError` (covid/utils.py:14-17) is dynamic typing. It is the choice between `Scalar` and `Seq`. Strings, which Python would iterate character by character, are not values here.
- `pc`, `pm` and `p10k` of a list: `100 * n` repeats a Python list instead of scaling it. The model takes a number only.
- `Decimal.IsDigit` accepts only `0`–`9`. Python's `\d` in `N_RE` also matches the other Unicode decimal digits, which `str` of an `int` or a `float` never produces.
- `Grouping.RPartition`: for `n <= 0` and a nonempty input the source loops forever, appending empty groups. That case is excluded by the requires.
- The regular expression engine itself is not modelled. The scanner is anchored at the start of the text, as `re.match` is, and does not have to reach its end.
- `indent` line breaks: only `'\n'` ends a line. The other `splitlines` boundaries (`\r`, `\r\n`, `\v`, `\f`, `\x1c`–`\x1e`, `\x85`, `\u2028`, `\u2029`) are not recognised.
- `Indentation.IndentLines`: a string prefix that itself holds a `'\n'` adds line breaks of its own, where this property does not hold, hence its requires.
- `Indentation.IndentStrip`: stated on the lines of the result, so it has the same requires as `Indentation.IndentLines`; `Indentation.IndentPiecesStrip` states the round trip for every prefix on the pieces `indent` joins.
