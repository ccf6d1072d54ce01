/** The scalar formatter `fmt`, its sequence case, and the ratio formatters
    `pc`, `pm` and `p10k`.  Python's float printing and float arithmetic are
    outside the model: they are the functions of a `FloatOps` value, so that
    every band that renders a float is stated relative to them, while the
    bands an `int` below 100 000 reaches are exact string manipulation. */
module Format {
  import opened Options
  import opened Strings
  import opened Decimal
  import opened Grouping
  import opened Magnitude

  /** A Python number: an `int`, or a finite `float` given by its exact value. */
  datatype Number = Int(i: int) | Float(x: real)

  /** What `fmt` accepts: a number, or an iterable of values, which may
      itself hold iterables. */
  datatype Value = Scalar(n: Number) | Seq(items: seq<Value>)

  /** Python's float printing and float arithmetic. */
  datatype FloatOps = FloatOps(
    sci2: Number -> string,          // "%.2e" % n
    sci: Number -> string,           // "%e" % n
    fixed2: real -> string,          // f"{float(n):.2f}"
    repr: real -> string,            // str(x) for a float x
    divide: (Number, real) -> real,  // n / d, rounded to a float
    times: (int, real) -> real)      // k * x for a float x, rounded to a float

  /** `abs(n)`, as an exact value. */
  function Abs(n: Number): (m: real)
    ensures m >= 0.0
    ensures n.Int? ==> m == (if n.i < 0 then -n.i else n.i) as real
  {
    match n
    case Int(i) => if i < 0 then (-i) as real else i as real
    case Float(x) => if x < 0.0 then -x else x
  }

  /** `str(n)`. */
  function Repr(ops: FloatOps, n: Number): string
  {
    match n
    case Int(i) => Str(i)
    case Float(x) => ops.repr(x)
  }

  /** The least `int` magnitude that `float()` rounds past the largest
      finite double, 2^1024 - 2^970: `"%e"` fails on such an `int` with
      `OverflowError`. */
  const FloatLimit: int := 179769313486231580793728971405303415079934132710037826936173778980444968292764750946649017977587207096330286416692887910946555547851940402630657488671505820681908902000708383676273854845817711531764475730270069855571366959622842914819860834936475292719074168444365510704342711559699508093042880177904174497792

  /** The scalar part of `fmt`: the band of `abs(n)` picks the rendering;
      `None` where the source raises. */
  function FmtNumber(ops: FloatOps, n: Number): (r: Option<string>)
  {
    var m := Abs(n);
    if m == 0.0 then Some("0")
    else if m < 0.001 then Some(ops.sci2(n))
    else if 0.001 <= m < 1000.0 then
      (match n
       case Int(i) => Some(Str(i))
       case Float(x) => Some(ops.fixed2(x)))
    else if 1000.0 <= m < 100000.0 then FmtAux(Repr(ops, n), "")
    else if 100000.0 <= m < 1000000000.0 then FmtAux(ops.repr(ops.divide(n, 1000000.0)), "mi")
    else if 1000000000.0 <= m < 1000000000000.0 then FmtAux(ops.repr(ops.divide(n, 1000000000.0)), "bi")
    else if n.Int? && m >= FloatLimit as real then None
    else Some(ops.sci(n))
  }

  /** `", ".join(...)` over the formatted items; the first item that fails
      makes the whole join fail. */
  function JoinFormatted(parts: seq<Option<string>>): (r: Option<string>)
  {
    if parts == [] then Some("")
    else match parts[0]
      case None => None
      case Some(p) =>
        if |parts| == 1 then Some(p)
        else match JoinFormatted(parts[1..])
          case None => None
          case Some(rest) => Some(p + ", " + rest)
  }

  /** `fmt(v)`: an iterable is formatted item by item, anything else as a number. */
  function Fmt(ops: FloatOps, v: Value): (r: Option<string>)
    decreases v
  {
    match v
    case Scalar(n) => FmtNumber(ops, n)
    case Seq(items) => JoinFormatted(seq(|items|, i requires 0 <= i < |items| => Fmt(ops, items[i])))
  }

  /** An integer written with its sign and comma-grouped digits. */
  function Grouped(i: int): string
  {
    (if i < 0 then "-" else "") + FixInt(DigitsOf(if i < 0 then -i else i), 3)
  }

  /** Deleting the commas of the grouped form gives `str(i)`. */
  lemma GroupedIsStr(i: int)
    ensures Without(Grouped(i), ',') == Str(i)
  {
    var d := DigitsOf(if i < 0 then -i else i);
    assert ',' !in d by {
      forall k | 0 <= k < |d| ensures d[k] != ',' {
        assert IsDigit(d[k]);
      }
    }
    FixIntProperties(d, 3);
    var sign := if i < 0 then "-" else "";
    CountAbsent(sign, ',');
    WithoutAppend(sign, FixInt(d, 3), ',');
  }

  /** Below 1000 an `int` is printed by `str`: one group, no comma. */
  lemma FmtIntSmall(ops: FloatOps, i: int)
    requires 0 < (if i < 0 then -i else i) < 1000
    ensures Fmt(ops, Scalar(Int(i))) == Some(Str(i))
    ensures Grouped(i) == Str(i)
  {
    var a := if i < 0 then -i else i;
    DigitsOfLength(a, 3);
    FixIntShort(DigitsOf(a));
  }

  /** Four or five digits get one comma, three digits from the right, and
      `_fmt_aux` on `str(i)` with no suffix gives exactly that. */
  lemma GroupedThousands(i: int)
    requires 1000 <= (if i < 0 then -i else i) < 100000
    ensures FmtAux(Str(i), "") == Some(Grouped(i))
    ensures var d := DigitsOf(if i < 0 then -i else i);
      4 <= |d| <= 5 &&
      Grouped(i) == (if i < 0 then "-" else "") + d[..|d| - 3] + "," + d[|d| - 3..]
  {
    var a := if i < 0 then -i else i;
    var d := DigitsOf(a);
    assert 4 <= |d| <= 5 by {
      DigitsOfLength(a, 3);
      DigitsOfLength(a, 5);
    }
    var sign := if i < 0 then "-" else "";
    assert Grouped(i) == sign + FixInt(d, 3) && Str(i) == sign + d;
    OneCommaText(i < 0, d);
  }

  lemma OneCommaText(negative: bool, d: string)
    requires 4 <= |d| <= 5 && AllDigits(d)
    ensures var sign := if negative then "-" else "";
      var g := sign + d[..|d| - 3] + "," + d[|d| - 3..];
      && sign + FixInt(d, 3) == g
      && FmtAux(sign + d, "") == Some(g)
  {
    var sign := if negative then "-" else "";
    var head := d[..|d| - 3];
    var tail := d[|d| - 3..];
    FixIntOneComma(d);
    FmtAuxDecimal(negative, d, false, "", "");
    assert DecimalText(negative, d, false, "") == sign + d;
    Regroup(sign, head, ",", tail);
  }

  lemma Regroup<T>(a: seq<T>, b: seq<T>, c: seq<T>, d: seq<T>)
    ensures a + (b + c + d) + [] + [] == a + b + c + d
  {
  }

  /** From 1000 to 99999 an `int` goes through `_fmt_aux` with no suffix. */
  lemma FmtIntThousands(ops: FloatOps, i: int)
    requires 1000 <= (if i < 0 then -i else i) < 100000
    ensures Fmt(ops, Scalar(Int(i))) == Some(Grouped(i))
  {
    GroupedThousands(i);
    assert FmtNumber(ops, Int(i)) == FmtAux(Str(i), "");
  }

  /** For an `int` with `0 < |i| < 100000` every step is exact: the
      result is the signed, comma-grouped decimal digits of `i`, and no
      float rendering is involved.  Below 1000 this is `str(i)`; from 1000
      on there is exactly one comma, three digits from the right. */
  lemma FmtIntExact(ops: FloatOps, i: int)
    requires 0 < (if i < 0 then -i else i) < 100000
    ensures Fmt(ops, Scalar(Int(i))) == Some(Grouped(i))
    ensures (if i < 0 then -i else i) < 1000 ==> Grouped(i) == Str(i)
    ensures var d := DigitsOf(if i < 0 then -i else i);
      1000 <= (if i < 0 then -i else i) ==>
        4 <= |d| <= 5 &&
        Grouped(i) == (if i < 0 then "-" else "") + d[..|d| - 3] + "," + d[|d| - 3..]
  {
    if (if i < 0 then -i else i) < 1000 {
      FmtIntSmall(ops, i);
    } else {
      FmtIntThousands(ops, i);
      GroupedThousands(i);
    }
  }

  /** The sign is kept: in the exact bands `fmt(-n)` is `"-" + fmt(n)`. */
  lemma FmtIntNegate(ops: FloatOps, i: int)
    requires 0 < i < 100000
    ensures Fmt(ops, Scalar(Int(-i))) == Some("-" + Fmt(ops, Scalar(Int(i))).value)
  {
    FmtIntExact(ops, i);
    FmtIntExact(ops, -i);
    var g := FixInt(DigitsOf(i), 3);
    assert Grouped(i) == "" + g == g;
    assert Grouped(-i) == "-" + g;
    assert Fmt(ops, Scalar(Int(i))).value == g;
  }

  /** Zero in any form is `"0"`. */
  lemma FmtZero(ops: FloatOps)
    ensures Fmt(ops, Scalar(Int(0))) == Some("0")
    ensures Fmt(ops, Scalar(Float(0.0))) == Some("0")
  {
  }

  /** The bands are half open: a magnitude that equals a boundary is
      formatted by the band above it.  The lowest boundary is the double the
      literal `0.001` denotes, just above the real 0.001. */
  lemma FmtBoundaries(ops: FloatOps, n: Number)
    ensures n.Float? && Abs(n) == 0.001000000000000000020816681711721685132943093776702880859375 ==>
      Fmt(ops, Scalar(n)) == Some(ops.fixed2(n.x))
    ensures Abs(n) == 1000.0 ==> Fmt(ops, Scalar(n)) == FmtAux(Repr(ops, n), "")
    ensures Abs(n) == 100000.0 ==>
      Fmt(ops, Scalar(n)) == FmtAux(ops.repr(ops.divide(n, 1000000.0)), "mi")
    ensures Abs(n) == 1000000000.0 ==>
      Fmt(ops, Scalar(n)) == FmtAux(ops.repr(ops.divide(n, 1000000000.0)), "bi")
    ensures Abs(n) == 1000000000000.0 ==> Fmt(ops, Scalar(n)) == Some(ops.sci(n))
  {
  }

  /** From 10^12 on a float, and an `int` that converts to a float, is
      printed by `"%e"`; an `int` too large for a float makes `fmt` fail. */
  lemma FmtLarge(ops: FloatOps, n: Number)
    requires Abs(n) >= 1000000000000.0
    ensures Fmt(ops, Scalar(n)).None? <==> n.Int? && Abs(n) >= FloatLimit as real
    ensures Fmt(ops, Scalar(n)).Some? ==> Fmt(ops, Scalar(n)).value == ops.sci(n)
  {
  }

  /** The overflow boundary: `2^1024 - 2^970` fails, one less is printed, and
      so is every float. */
  lemma FmtOverflowBoundary(ops: FloatOps, x: real)
    requires 1000000000000.0 <= (if x < 0.0 then -x else x)
    ensures Fmt(ops, Scalar(Int(FloatLimit))) == None
    ensures Fmt(ops, Scalar(Int(-FloatLimit))) == None
    ensures Fmt(ops, Scalar(Int(FloatLimit - 1))) == Some(ops.sci(Int(FloatLimit - 1)))
    ensures Fmt(ops, Scalar(Float(x))) == Some(ops.sci(Float(x)))
  {
  }

  lemma Digits999()
    ensures DigitsOf(999) == "999"
  {
    DigitsOfValueOf("999");
  }

  lemma Digits1000()
    ensures DigitsOf(1000) == "1000"
  {
    DigitsOfValueOf("1000");
  }

  lemma Digits99999()
    ensures DigitsOf(99999) == "99999"
  {
    DigitsOfValueOf("99999");
  }

  /** 999 is the last plain integer. */
  lemma FmtInt999(ops: FloatOps)
    ensures Fmt(ops, Scalar(Int(999))) == Some("999")
  {
    FmtIntExact(ops, 999);
    Digits999();
    FixIntShort("999");
    assert Grouped(999) == "" + "999" == "999";
  }

  lemma Grouped1000()
    ensures Grouped(1000) == "1,000"
  {
    Digits1000();
    FixIntOneComma("1000");
    assert "1000"[..1] == "1" && "1000"[1..] == "000";
    assert "" + ("1" + "," + "000") == "1,000";
  }

  /** 1000 is the first grouped integer. */
  lemma FmtInt1000(ops: FloatOps)
    ensures Fmt(ops, Scalar(Int(1000))) == Some("1,000")
  {
    FmtIntExact(ops, 1000);
    Grouped1000();
  }

  lemma Grouped99999()
    ensures Grouped(99999) == "99,999"
  {
    Digits99999();
    FixIntOneComma("99999");
    assert "99999"[..2] == "99" && "99999"[2..] == "999";
    assert "" + ("99" + "," + "999") == "99,999";
  }

  /** 99999 is the last grouped integer, and 100000 is already in the `mi` band. */
  lemma FmtInt99999(ops: FloatOps)
    ensures Fmt(ops, Scalar(Int(99999))) == Some("99,999")
    ensures Fmt(ops, Scalar(Int(100000))) == FmtAux(ops.repr(ops.divide(Int(100000), 1000000.0)), "mi")
  {
    FmtIntExact(ops, 99999);
    Grouped99999();
  }

  /** A float between 1000 and 100000 printed as a decimal keeps its sign,
      has its integer digits grouped and its fraction cut to two digits. */
  lemma FmtFloatThousands(ops: FloatOps, x: real, negative: bool, digits: string, point: bool, fraction: string)
    requires 1000.0 <= Abs(Float(x)) < 100000.0
    requires digits != [] && AllDigits(digits) && AllDigits(fraction)
    requires ops.repr(x) == DecimalText(negative, digits, point, fraction)
    ensures Fmt(ops, Scalar(Float(x))) == Some((if negative then "-" else "") + FixInt(digits, 3)
                                              + (if point then "." + Take(fraction, 2) else ""))
  {
    assert Fmt(ops, Scalar(Float(x))) == FmtAux(ops.repr(x), "");
    FmtAuxDecimal(negative, digits, point, fraction, "");
    AppendEmpty((if negative then "-" else "") + FixInt(digits, 3) + (if point then "." + Take(fraction, 2) else ""));
  }

  lemma AppendEmpty<T>(s: seq<T>)
    ensures s + [] == s
  {
  }

  /** From 100000 to 10^12 the scaled value is printed, reduced like a
      decimal, and followed by `mi` or `bi`. */
  lemma FmtScaled(ops: FloatOps, n: Number, negative: bool, digits: string, point: bool, fraction: string)
    requires 100000.0 <= Abs(n) < 1000000000000.0
    requires digits != [] && AllDigits(digits) && AllDigits(fraction)
    requires var d := if Abs(n) < 1000000000.0 then 1000000.0 else 1000000000.0;
      ops.repr(ops.divide(n, d)) == DecimalText(negative, digits, point, fraction)
    ensures Fmt(ops, Scalar(n)) == Some((if negative then "-" else "") + FixInt(digits, 3)
                                       + (if point then "." + Take(fraction, 2) else "")
                                       + (if Abs(n) < 1000000000.0 then "mi" else "bi"))
  {
    FmtAuxDecimal(negative, digits, point, fraction, if Abs(n) < 1000000000.0 then "mi" else "bi");
  }

  lemma {:induction false} JoinFormattedAll(parts: seq<Option<string>>, texts: seq<string>)
    requires |parts| == |texts|
    requires forall k :: 0 <= k < |parts| ==> parts[k] == Some(texts[k])
    ensures JoinFormatted(parts) == Some(Join(", ", texts))
  {
    if |parts| > 1 {
      JoinFormattedAll(parts[1..], texts[1..]);
    }
  }

  lemma {:induction false} JoinFormattedFails(parts: seq<Option<string>>)
    ensures JoinFormatted(parts).None? <==> exists k :: 0 <= k < |parts| && parts[k].None?
  {
    if parts != [] && parts[0].Some? && |parts| > 1 {
      JoinFormattedFails(parts[1..]);
      if exists k :: 0 <= k < |parts| && parts[k].None? {
        var k :| 0 <= k < |parts| && parts[k].None?;
        assert parts[1..][k - 1].None?;
      }
    }
  }

  /** A sequence is formatted as the `", "`-join of its items' formats, in
      order. */
  lemma FmtSeq(ops: FloatOps, items: seq<Value>, texts: seq<string>)
    requires |texts| == |items|
    requires forall k :: 0 <= k < |items| ==> Fmt(ops, items[k]) == Some(texts[k])
    ensures Fmt(ops, Seq(items)) == Some(Join(", ", texts))
  {
    var parts := seq(|items|, i requires 0 <= i < |items| => Fmt(ops, items[i]));
    JoinFormattedAll(parts, texts);
  }

  /** Formatting a sequence fails exactly when formatting one of its items fails. */
  lemma FmtSeqFails(ops: FloatOps, items: seq<Value>)
    ensures Fmt(ops, Seq(items)).None? <==> exists k :: 0 <= k < |items| && Fmt(ops, items[k]).None?
  {
    var parts := seq(|items|, i requires 0 <= i < |items| => Fmt(ops, items[i]));
    JoinFormattedFails(parts);
    assert forall k :: 0 <= k < |items| ==> parts[k] == Fmt(ops, items[k]);
  }

  /** Two million is in the `mi` band: when `str(2000000 / 1e6)` is `"2.0"`,
      the result is `"2.0mi"`, with one decimal, not two. */
  lemma FmtTwoMillion(ops: FloatOps)
    requires ops.repr(ops.divide(Int(2000000), 1000000.0)) == "2.0"
    ensures Fmt(ops, Scalar(Int(2000000))) == Some("2.0mi")
  {
    assert AllDigits("0");
    FmtScaled(ops, Int(2000000), false, "2", true, "0");
    assert DecimalText(false, "2", true, "0") == "2.0";
    FixIntShort("2");
    assert Take("0", 2) == "0";
    assert "" + "2" + ("." + "0") + "mi" == "2.0mi";
  }

  /** Three items are joined with `", "` between neighbours. */
  lemma FmtThree(ops: FloatOps, a: Value, b: Value, c: Value, ta: string, tb: string, tc: string)
    requires Fmt(ops, a) == Some(ta) && Fmt(ops, b) == Some(tb) && Fmt(ops, c) == Some(tc)
    ensures Fmt(ops, Seq([a, b, c])) == Some(ta + ", " + tb + ", " + tc)
  {
    var texts := [ta, tb, tc];
    FmtSeq(ops, [a, b, c], texts);
    assert texts[1..] == [tb, tc] && [tb, tc][1..] == [tc];
    assert Join(", ", [tb, tc]) == tb + ", " + tc;
    assert Join(", ", texts) == ta + ", " + (tb + ", " + tc) == ta + ", " + tb + ", " + tc;
  }

  /** `fmt([1000, 2000000, 0])`, where `str(2000000 / 1e6)` is `"2.0"`. */
  lemma FmtSeqExample(ops: FloatOps, items: seq<Value>)
    requires items == [Scalar(Int(1000)), Scalar(Int(2000000)), Scalar(Int(0))]
    requires ops.repr(ops.divide(Int(2000000), 1000000.0)) == "2.0"
    ensures Fmt(ops, Seq(items)) == Some("1,000, 2.0mi, 0")
  {
    FmtInt1000(ops);
    FmtTwoMillion(ops);
    FmtThree(ops, items[0], items[1], items[2], "1,000", "2.0mi", "0");
    ExampleText();
  }

  lemma ExampleText()
    ensures "1,000" + ", " + "2.0mi" + ", " + "0" == "1,000, 2.0mi, 0"
  {
    assert "1,000" + ", " == "1,000, ";
    assert "1,000, " + "2.0mi" == "1,000, 2.0mi";
    assert "1,000, 2.0mi" + ", " == "1,000, 2.0mi, ";
  }

  /** `k * n`, exact for an `int`, float arithmetic for a `float`. */
  function Scale(ops: FloatOps, k: int, n: Number): Number
  {
    match n
    case Int(i) => Int(k * i)
    case Float(x) => Float(ops.times(k, x))
  }

  /** The shape shared by `pc`, `pm` and `p10k`: a fixed literal for zero,
      otherwise `fmt(k * n)` followed directly by the unit. */
  function Ratio(ops: FloatOps, n: Number, k: int, zero: string, unit: string): (r: Option<string>)
  {
    if Abs(n) == 0.0 then Some(zero)
    else match Fmt(ops, Scalar(Scale(ops, k, n)))
      case None => None
      case Some(s) => Some(s + unit)
  }

  /** `pc(n)`: percentages. */
  function Pc(ops: FloatOps, n: Number): Option<string>
  {
    Ratio(ops, n, 100, "0.0%", "%")
  }

  /** `pm(n)`: parts per thousand. */
  function Pm(ops: FloatOps, n: Number): Option<string>
  {
    Ratio(ops, n, 1000, "0.0\U{2030}", "\U{2030}")
  }

  /** `p10k(n)`: parts per ten thousand. */
  function P10k(ops: FloatOps, n: Number): Option<string>
  {
    Ratio(ops, n, 10000, "0.0\U{2031}", "\U{2031}")
  }

  /** Zero is the hard-coded one-decimal literal, not `fmt`'s `"0"`. */
  lemma RatioZero(ops: FloatOps, n: Number)
    requires Abs(n) == 0.0
    ensures Pc(ops, n) == Some("0.0%")
    ensures Pm(ops, n) == Some("0.0\U{2030}")
    ensures P10k(ops, n) == Some("0.0\U{2031}")
  {
  }

  /** For a nonzero `int` whose scaled value stays below 100000 the ratio is
      exact: the grouped scaled value with the unit right after it. */
  lemma RatioIntExact(ops: FloatOps, i: int, k: int, zero: string, unit: string)
    requires i != 0 && k > 0
    requires (if i < 0 then -i else i) * k < 100000
    ensures Ratio(ops, Int(i), k, zero, unit) == Some(Grouped(k * i) + unit)
  {
    AbsScaled(i, k);
    FmtIntExact(ops, k * i);
    assert Abs(Int(i)) != 0.0 && Scale(ops, k, Int(i)) == Int(k * i);
  }

  lemma AbsScaled(i: int, k: int)
    requires i != 0 && k > 0
    ensures var p := k * i; (if p < 0 then -p else p) == (if i < 0 then -i else i) * k >= k
  {
    var a := if i < 0 then -i else i;
    MulAtLeast(a, k);
    if i < 0 {
      assert k * i == -(a * k);
    } else {
      assert k * i == a * k;
    }
  }

  /** `pc`, `pm` and `p10k` scale by 100, 1000 and 10000 and append `%`,
      `‰` and `‱`. */
  lemma RatioUnits(ops: FloatOps, i: int)
    requires 0 < (if i < 0 then -i else i) < 10
    ensures Pc(ops, Int(i)) == Some(Grouped(100 * i) + "%")
    ensures Pm(ops, Int(i)) == Some(Grouped(1000 * i) + "\U{2030}")
    ensures P10k(ops, Int(i)) == Some(Grouped(10000 * i) + "\U{2031}")
  {
    RatioIntExact(ops, i, 100, "0.0%", "%");
    RatioIntExact(ops, i, 1000, "0.0\U{2030}", "\U{2030}");
    RatioIntExact(ops, i, 10000, "0.0\U{2031}", "\U{2031}");
  }

  /** For a nonzero float the band of the rounded product `k * x` picks the
      rendering, and the unit comes right after it: as a further suffix of
      `_fmt_aux` in the grouped bands. */
  lemma RatioFloat(ops: FloatOps, x: real, k: int, zero: string, unit: string)
    requires x != 0.0
    ensures var y := ops.times(k, x); var m := Abs(Float(y)); var r := Ratio(ops, Float(x), k, zero, unit);
      && (m == 0.0 ==> r == Some("0" + unit))
      && (0.0 < m < 0.001 ==> r == Some(ops.sci2(Float(y)) + unit))
      && (0.001 <= m < 1000.0 ==> r == Some(ops.fixed2(y) + unit))
      && (1000.0 <= m < 100000.0 ==> r == FmtAux(ops.repr(y), unit))
      && (100000.0 <= m < 1000000000.0 ==> r == FmtAux(ops.repr(ops.divide(Float(y), 1000000.0)), "mi" + unit))
      && (1000000000.0 <= m < 1000000000000.0 ==> r == FmtAux(ops.repr(ops.divide(Float(y), 1000000000.0)), "bi" + unit))
      && (1000000000000.0 <= m ==> r == Some(ops.sci(Float(y)) + unit))
  {
    var y := ops.times(k, x);
    assert Ratio(ops, Float(x), k, zero, unit) == match FmtNumber(ops, Float(y))
      case None => None
      case Some(s) => Some(s + unit);
    FmtAuxSuffix(ops.repr(y), "", unit);
    FmtAuxSuffix(ops.repr(ops.divide(Float(y), 1000000.0)), "mi", unit);
    FmtAuxSuffix(ops.repr(ops.divide(Float(y), 1000000000.0)), "bi", unit);
  }

  /** `pc(0.5)` is `fmt(50.0) + "%"`, and a float below 1000 is printed with
      two decimals: `"50.00%"`. */
  lemma PcHalf(ops: FloatOps)
    requires ops.times(100, 0.5) == 50.0 && ops.fixed2(50.0) == "50.00"
    ensures Pc(ops, Float(0.5)) == Some("50.00%")
  {
    assert "50.00" + "%" == "50.00%";
  }
}
