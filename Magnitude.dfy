/** The magnitude formatter `_fmt_aux`: the printed form of a number is
    matched against `N_RE = (-?)(\d+)(\.\d{,2})?\d*` and rebuilt as sign,
    comma-grouped integer digits, at most two decimals, and a suffix.  The
    regular expression is replaced by a scanner that makes the same greedy
    choices. */
module Magnitude {
  import opened Options
  import opened Decimal
  import opened Grouping

  /** The longest prefix of digits, which a greedy `\d*` consumes. */
  function DigitPrefix(s: string): (d: string)
    ensures d <= s && AllDigits(d)
    ensures |d| < |s| ==> !IsDigit(s[|d|])
  {
    if s != [] && IsDigit(s[0]) then [s[0]] + DigitPrefix(s[1..]) else []
  }

  /** At most the first `k` elements: a slice `s[:k]`. */
  function Take<T>(s: seq<T>, k: nat): (r: seq<T>)
    ensures r <= s && |r| == if |s| <= k then |s| else k
  {
    if |s| <= k then s else s[..k]
  }

  /** The three groups of a successful match; an unmatched optional decimal
      group is the empty string, as `decimal or ""` makes it. */
  datatype NumberMatch = NumberMatch(sign: string, number: string, decimal: string)

  /** What `-?` consumes: a leading minus sign, if there is one. */
  function OptionalSign(x: string): (sign: string)
    ensures sign <= x && (sign == "" || sign == "-")
    ensures sign == "-" <==> |x| > 0 && x[0] == '-'
  {
    if x != [] && x[0] == '-' then "-" else ""
  }

  /** What the greedy group `(\.\d{,2})?` consumes from `after`: a point and
      the digits right after it, two when there are at least two. */
  function DecimalGroup(after: string): (decimal: string)
    ensures decimal <= after
    ensures decimal == "" <==> !(|after| > 0 && after[0] == '.')
    ensures decimal != "" ==> decimal[0] == '.' && |decimal| <= 3 && AllDigits(decimal[1..])
    ensures decimal != "" && |decimal| < 3 && |decimal| < |after| ==> !IsDigit(after[|decimal|])
  {
    if after != [] && after[0] == '.' then
      var kept := Take(DigitPrefix(after[1..]), 2);
      assert after == "." + after[1..];
      assert ("." + kept)[1..] == kept;
      "." + kept
    else ""
  }

  /** `N_RE.match(x)`: anchored at the start of `x`, not at its end. */
  function MatchNumber(x: string): (m: Option<NumberMatch>)
  {
    var sign := OptionalSign(x);
    var body := x[|sign|..];
    var number := DigitPrefix(body);
    if number == [] then None
    else Some(NumberMatch(sign, number, DecimalGroup(body[|number|..])))
  }

  /** The match fails exactly when no digit opens `x`, after an optional `-`. */
  lemma MatchNumberFails(x: string)
    ensures MatchNumber(x).None? <==>
      !((|x| > 0 && IsDigit(x[0])) || (|x| > 1 && x[0] == '-' && IsDigit(x[1])))
  {
    var body := x[|OptionalSign(x)|..];
    assert body != [] ==> body[0] == x[|OptionalSign(x)|];
  }

  /** A successful match takes the sign from a leading `-` and the integer
      digits as the whole digit run after it. */
  lemma MatchNumberInteger(x: string)
    requires MatchNumber(x).Some?
    ensures var NumberMatch(sign, number, decimal) := MatchNumber(x).value;
      && sign + number <= x
      && (sign == "-" <==> x[0] == '-') && (sign == "" || sign == "-")
      && number != [] && AllDigits(number)
      && (|sign + number| < |x| ==> !IsDigit(x[|sign + number|]))
  {
    var sign := OptionalSign(x);
    var body := x[|sign|..];
    var number := DigitPrefix(body);
    assert x == sign + body;
    PrefixAfter(sign, number, body);
    assert |sign + number| < |x| ==> x[|sign + number|] == body[|number|];
  }

  /** The decimal group is present exactly when a point follows the integer
      digits, and is then the point with at most two digits, two of them
      unless no further digit follows; the whole match opens `x`. */
  lemma MatchNumberDecimal(x: string)
    requires MatchNumber(x).Some?
    ensures var m := MatchNumber(x).value;
      var head := m.sign + m.number;
      && head + m.decimal <= x
      && (m.decimal == "" <==> !(|head| < |x| && x[|head|] == '.'))
      && (m.decimal != "" ==> m.decimal[0] == '.' && |m.decimal| <= 3 && AllDigits(m.decimal[1..]))
      && (m.decimal != "" && |m.decimal| < 3 && |head + m.decimal| < |x| ==> !IsDigit(x[|head + m.decimal|]))
  {
    var m := MatchNumber(x).value;
    MatchNumberSplit(x);
    DecimalAfter(x, m.sign + m.number);
  }

  /** What the decimal group takes from the text after a prefix `head` of
      `x`, read as positions of `x`. */
  lemma DecimalAfter(x: string, head: string)
    requires head <= x
    ensures var decimal := DecimalGroup(x[|head|..]);
      && head + decimal <= x
      && (decimal == "" <==> !(|head| < |x| && x[|head|] == '.'))
      && (decimal != "" && |decimal| < 3 && |head + decimal| < |x| ==> !IsDigit(x[|head + decimal|]))
  {
    var after := x[|head|..];
    var decimal := DecimalGroup(after);
    assert x == head + after;
    PrefixAfter(head, decimal, after);
    assert |head| < |x| ==> x[|head|] == after[0];
    assert |head + decimal| < |x| ==> x[|head + decimal|] == after[|decimal|];
  }

  /** The sign and the integer digits open `x`, and the decimal group is read
      from what follows them. */
  lemma MatchNumberSplit(x: string)
    requires MatchNumber(x).Some?
    ensures var m := MatchNumber(x).value;
      m.sign + m.number <= x && m.decimal == DecimalGroup(x[|m.sign + m.number|..])
  {
    var sign := OptionalSign(x);
    var body := x[|sign|..];
    var number := DigitPrefix(body);
    assert x == sign + body;
    PrefixAfter(sign, number, body);
    assert x[|sign + number|..] == body[|number|..];
  }

  lemma PrefixAfter<T>(a: seq<T>, b: seq<T>, c: seq<T>)
    requires b <= c
    ensures a + b <= a + c
  {
    assert (a + c)[..|a + b|] == a + b;
  }

  /** `_fmt_aux` applied to the printed form `x` of a number; `None` when the
      pattern does not match, where the source fails on `None.groups()`. */
  function FmtAux(x: string, suffix: string): (r: Option<string>)
    ensures r.None? <==> MatchNumber(x).None?
    ensures r.Some? ==> |suffix| <= |r.value| && r.value[|r.value| - |suffix|..] == suffix
  {
    match MatchNumber(x)
    case None => None
    case Some(NumberMatch(sign, number, decimal)) => Some(sign + FixInt(number, 3) + decimal + suffix)
  }

  /** Text appended to `_fmt_aux`'s result is the same as a longer suffix. */
  lemma FmtAuxSuffix(x: string, suffix: string, more: string)
    ensures FmtAux(x, suffix + more) == match FmtAux(x, suffix)
      case None => None
      case Some(s) => Some(s + more)
  {
    match MatchNumber(x)
    case None =>
    case Some(NumberMatch(sign, number, decimal)) =>
      var head := sign + FixInt(number, 3) + decimal;
      assert head + suffix + more == head + (suffix + more);
  }

  /** The printed form of a decimal number, from its parts. */
  function DecimalText(negative: bool, digits: string, point: bool, fraction: string): string
  {
    (if negative then "-" else "") + digits + (if point then "." + fraction else "")
  }

  /** On a decimal `-?d+(.d*)?` the sign is kept, the integer digits are
      grouped by threes, the fraction is cut (not rounded, not padded) to its
      first two digits, an input without a point gets no decimal part, and the
      suffix comes last. */
  lemma FmtAuxDecimal(negative: bool, digits: string, point: bool, fraction: string, suffix: string)
    requires digits != [] && AllDigits(digits) && AllDigits(fraction)
    ensures FmtAux(DecimalText(negative, digits, point, fraction), suffix)
         == Some((if negative then "-" else "") + FixInt(digits, 3)
                 + (if point then "." + Take(fraction, 2) else "") + suffix)
  {
    var sign := if negative then "-" else "";
    var x := DecimalText(negative, digits, point, fraction);
    var tail := if point then "." + fraction else "";
    var decimal := if point then "." + Take(fraction, 2) else "";
    assert OptionalSign(x) == sign && x[|sign|..] == digits + tail by {
      assert x == sign + (digits + tail);
    }
    assert DigitPrefix(digits + tail) == digits && (digits + tail)[|digits|..] == tail by {
      DigitPrefixOf(digits, tail);
    }
    assert DecimalGroup(tail) == decimal by {
      if point {
        assert tail[1..] == fraction;
        DigitPrefixAll(fraction);
      }
    }
    assert MatchNumber(x) == Some(NumberMatch(sign, digits, decimal));
  }

  lemma {:induction false} DigitPrefixAll(s: string)
    requires AllDigits(s)
    ensures DigitPrefix(s) == s
  {
    if s != [] {
      DigitPrefixAll(s[1..]);
    }
  }

  /** A greedy digit scan stops exactly at the end of a digit run that is
      followed by a non-digit (or by nothing). */
  lemma {:induction false} DigitPrefixOf(digits: string, tail: string)
    requires AllDigits(digits) && (tail == [] || !IsDigit(tail[0]))
    ensures DigitPrefix(digits + tail) == digits
  {
    if digits == [] {
      assert digits + tail == tail;
    } else {
      assert (digits + tail)[1..] == digits[1..] + tail;
      DigitPrefixOf(digits[1..], tail);
    }
  }

  /** The result starts with `-` exactly when the input does. */
  lemma FmtAuxSign(negative: bool, digits: string, point: bool, fraction: string, suffix: string)
    requires digits != [] && AllDigits(digits) && AllDigits(fraction)
    ensures var r := FmtAux(DecimalText(negative, digits, point, fraction), suffix);
      r.Some? && |r.value| > 0 && (r.value[0] == '-' <==> negative)
  {
    FmtAuxDecimal(negative, digits, point, fraction, suffix);
    RPartitionShape(digits, 3);
    var gs := RPartition(digits, 3);
    GroupInside(digits, 3, 0);
    assert gs[0][0] in digits;
    assert FixInt(digits, 3) != [] && FixInt(digits, 3)[0] == gs[0][0] by {
      JoinStart(',', gs);
    }
  }

  /** Truncation, not rounding: nothing is carried into the kept digits. */
  lemma FmtAuxTruncates()
    ensures FmtAux("0.999", "mi") == Some("0.99mi")
  {
    assert AllDigits("999");
    FmtAuxDecimal(false, "0", true, "999", "mi");
    TruncatesText();
    FixIntShort("0");
    assert Take("999", 2) == "99";
  }

  lemma TruncatesText()
    ensures DecimalText(false, "0", true, "999") == "0.999"
    ensures "" + "0" + ("." + "99") + "mi" == "0.99mi"
  {
    assert "" + "0" + ("." + "999") == "0.999";
  }

  /** An input without a point gets no decimal part. */
  lemma FmtAuxGroupsInteger()
    ensures FmtAux("12345", "") == Some("12,345")
  {
    FmtAuxDecimal(false, "12345", false, "", "");
    GroupsText();
    FixIntOneComma("12345");
  }

  lemma GroupsText()
    ensures DecimalText(false, "12345", false, "") == "12345"
    ensures "12345"[..2] + "," + "12345"[2..] == "12,345"
    ensures "" + "12,345" + "" + "" == "12,345"
  {
    assert "12345"[..2] == "12" && "12345"[2..] == "345";
  }

  /** Text the pattern cannot match at its start gives no result. */
  lemma FmtAuxNoMatch(suffix: string)
    ensures FmtAux("nan", suffix) == None
    ensures FmtAux("-", suffix) == None
    ensures FmtAux("", suffix) == None
    ensures FmtAux(".5", suffix) == None
  {
    assert FmtAux("nan", suffix) == None by {
      MatchNumberFails("nan");
    }
    assert FmtAux("-", suffix) == None by {
      MatchNumberFails("-");
    }
    assert FmtAux(".5", suffix) == None by {
      MatchNumberFails(".5");
    }
  }
}
