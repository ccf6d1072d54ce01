/** The string helper `indent`: every line of a text gets the same prefix,
    and line terminators are kept.  Lines end at `'\n'` only. */
module Indentation {
  import opened Strings

  /** The `indent` argument: a width, which stands for that many spaces, or
      the prefix string itself. */
  datatype IndentArg = Width(k: int) | Prefix(s: string)

  /** `' ' * k`: `k` spaces, and none for a width that is not positive. */
  function Spaces(k: int): (r: string)
    ensures |r| == if k < 0 then 0 else k
    ensures forall i :: 0 <= i < |r| ==> r[i] == ' '
    decreases k
  {
    if k <= 0 then "" else Spaces(k - 1) + " "
  }

  /** The prefix an `indent` argument stands for. */
  function PrefixOf(arg: IndentArg): (pre: string)
    ensures arg.Width? ==> |pre| == (if arg.k < 0 then 0 else arg.k)
    ensures arg.Width? ==> forall i :: 0 <= i < |pre| ==> pre[i] == ' '
    ensures arg.Prefix? ==> pre == arg.s
  {
    match arg
    case Width(k) => Spaces(k)
    case Prefix(s) => s
  }

  /** One line as `splitlines(keepends=True)` yields it: nonempty, with a
      `'\n'` at most at its end. */
  ghost predicate IsLine(l: string)
  {
    l != [] && forall i :: 0 <= i < |l| - 1 ==> l[i] != '\n'
  }

  /** The shape of a `splitlines` result: lines, each but the last ending in
      `'\n'`. */
  ghost predicate IsLines(ls: seq<string>)
  {
    (forall i :: 0 <= i < |ls| ==> IsLine(ls[i])) &&
    (forall i :: 0 <= i < |ls| - 1 ==> ls[i][|ls[i]| - 1] == '\n')
  }

  /** Length of the first line of `st`, terminator included. */
  function LineEnd(st: string): (k: nat)
    requires st != []
    ensures 0 < k <= |st|
    ensures forall i :: 0 <= i < k - 1 ==> st[i] != '\n'
    ensures k < |st| ==> st[k - 1] == '\n'
    ensures st[k - 1] == '\n' || k == |st|
  {
    if st[0] == '\n' || |st| == 1 then 1 else 1 + LineEnd(st[1..])
  }

  /** `st.splitlines(keepends=True)` with `'\n'` as the only line break: the
      empty text has no lines, and a final `'\n'` opens no empty line. */
  function SplitLines(st: string): (ls: seq<string>)
    decreases |st|
  {
    if st == [] then [] else
      var k := LineEnd(st);
      [st[..k]] + SplitLines(st[k..])
  }

  /** `indent + ln` for every line `ln`, in order. */
  function Prefixed(pre: string, ls: seq<string>): seq<string>
  {
    seq(|ls|, i requires 0 <= i < |ls| => pre + ls[i])
  }

  /** `indent(st, arg)`: the prefixed lines laid end to end. */
  function Indent(st: string, arg: IndentArg): (r: string)
  {
    Concat(Prefixed(PrefixOf(arg), SplitLines(st)))
  }

  /** `indent(st)`: the default argument is a width of 4. */
  function IndentDefault(st: string): (r: string)
  {
    Indent(st, Width(4))
  }

  /** Splitting into lines loses nothing, and only the empty text has no
      lines. */
  lemma {:induction false} SplitLinesConcat(st: string)
    ensures Concat(SplitLines(st)) == st
    ensures SplitLines(st) == [] <==> st == []
    decreases |st|
  {
    if st != [] {
      var k := LineEnd(st);
      SplitLinesConcat(st[k..]);
      assert st[..k] + st[k..] == st;
    }
  }

  /** Every piece is a line, and every line but the last ends in `'\n'`. */
  lemma {:induction false} SplitLinesShape(st: string)
    ensures IsLines(SplitLines(st))
    decreases |st|
  {
    if st != [] {
      var k := LineEnd(st);
      var rest := SplitLines(st[k..]);
      SplitLinesShape(st[k..]);
      SplitLinesConcat(st[k..]);
      var l := st[..k];
      assert IsLine(l) && (rest != [] ==> l[|l| - 1] == '\n');
      ConsLines(l, rest);
    }
  }

  lemma ConsLines(l: string, rest: seq<string>)
    requires IsLine(l) && IsLines(rest)
    requires rest != [] ==> l[|l| - 1] == '\n'
    ensures IsLines([l] + rest)
  {
    var ls := [l] + rest;
    assert forall i :: 0 < i < |ls| ==> ls[i] == rest[i - 1];
  }

  /** Well-formed lines are split back into exactly themselves: the line
      structure of a text is unique. */
  lemma {:induction false} SplitLinesUnique(ls: seq<string>)
    requires IsLines(ls)
    ensures SplitLines(Concat(ls)) == ls
  {
    if ls != [] {
      var l := ls[0];
      var rest := ls[1..];
      var st := Concat(ls);
      assert st == l + Concat(rest);
      assert IsLines(rest) by {
        assert forall i :: 0 <= i < |rest| ==> rest[i] == ls[i + 1];
      }
      SplitLinesUnique(rest);
      assert LineEnd(st) == |l| by {
        LineEndOf(l, Concat(rest));
      }
      assert st[..|l|] == l && st[|l|..] == Concat(rest);
    }
  }

  /** A line followed by more text ends where the line does, provided the
      line ends in `'\n'` or nothing follows it. */
  lemma {:induction false} LineEndOf(l: string, tail: string)
    requires IsLine(l)
    requires l[|l| - 1] == '\n' || tail == []
    ensures LineEnd(l + tail) == |l|
    decreases |l|
  {
    var st := l + tail;
    if |l| > 1 {
      assert st[0] == l[0] != '\n';
      assert st[1..] == l[1..] + tail;
      LineEndOf(l[1..], tail);
    } else if tail == [] {
      assert st == l;
    }
  }

  /** A prefix without `'\n'` keeps every line a line. */
  lemma PrefixedLines(pre: string, ls: seq<string>)
    requires '\n' !in pre && IsLines(ls)
    ensures IsLines(Prefixed(pre, ls))
  {
    var r := Prefixed(pre, ls);
    forall i | 0 <= i < |r|
      ensures IsLine(r[i])
      ensures i < |r| - 1 ==> r[i][|r[i]| - 1] == '\n'
    {
      var l := ls[i];
      assert r[i] == pre + l;
      forall j | 0 <= j < |pre + l| - 1
        ensures (pre + l)[j] != '\n'
      {
        if j < |pre| {
          assert (pre + l)[j] == pre[j];
        } else {
          assert (pre + l)[j] == l[j - |pre|];
        }
      }
    }
  }

  /** Each line of the result is the prefix followed by the corresponding
      line of `st`, terminator kept, when the prefix holds no line break (a
      width never does). */
  lemma IndentLines(st: string, arg: IndentArg)
    requires '\n' !in PrefixOf(arg)
    ensures SplitLines(Indent(st, arg)) == Prefixed(PrefixOf(arg), SplitLines(st))
  {
    SplitLinesConcat(st);
    SplitLinesShape(st);
    PrefixedLines(PrefixOf(arg), SplitLines(st));
    SplitLinesUnique(Prefixed(PrefixOf(arg), SplitLines(st)));
  }

  /** A width prefix is made of spaces only. */
  lemma WidthHasNoBreak(k: int)
    ensures '\n' !in PrefixOf(Width(k))
  {
    var pre := Spaces(k);
    forall i | 0 <= i < |pre| ensures pre[i] != '\n' {
      assert pre[i] == ' ';
    }
  }

  /** Each line minus its first `k` characters. */
  function Stripped(k: nat, ls: seq<string>): seq<string>
    requires forall i :: 0 <= i < |ls| ==> k <= |ls[i]|
  {
    seq(|ls|, i requires 0 <= i < |ls| => ls[i][k..])
  }

  /** Stripping the prefix from each prefixed line undoes `Prefixed`. */
  lemma StrippedPrefixed(pre: string, ls: seq<string>)
    ensures forall i :: 0 <= i < |ls| ==> pre <= Prefixed(pre, ls)[i]
    ensures Stripped(|pre|, Prefixed(pre, ls)) == ls
  {
    var pieces := Prefixed(pre, ls);
    assert forall i :: 0 <= i < |pieces| ==> pieces[i] == pre + ls[i] && pre <= pieces[i];
    forall i | 0 <= i < |ls| ensures Stripped(|pre|, pieces)[i] == ls[i] {
      assert (pre + ls[i])[|pre|..] == ls[i];
    }
  }

  /** Removing the prefix from each line of the result and joining the lines
      gives back `st`. */
  lemma IndentStrip(st: string, arg: IndentArg)
    requires '\n' !in PrefixOf(arg)
    ensures var pre := PrefixOf(arg);
      var lines := SplitLines(Indent(st, arg));
      && (forall i :: 0 <= i < |lines| ==> pre <= lines[i])
      && Concat(Stripped(|pre|, lines)) == st
  {
    IndentLines(st, arg);
    IndentPiecesStrip(st, arg);
  }

  /** For every prefix, line breaks included: removing the prefix from each
      of the pieces `indent` joins, and joining them, gives back `st`. */
  lemma IndentPiecesStrip(st: string, arg: IndentArg)
    ensures var pre := PrefixOf(arg);
      var pieces := Prefixed(pre, SplitLines(st));
      && Indent(st, arg) == Concat(pieces)
      && (forall i :: 0 <= i < |pieces| ==> pre <= pieces[i])
      && Concat(Stripped(|pre|, pieces)) == st
  {
    StrippedPrefixed(PrefixOf(arg), SplitLines(st));
    SplitLinesConcat(st);
  }

  /** The default indent puts four spaces before every line of `st`, and the
      result splits into exactly those lines. */
  lemma IndentDefaultLines(st: string)
    ensures SplitLines(IndentDefault(st)) == Prefixed("    ", SplitLines(st))
  {
    assert PrefixOf(Width(4)) == "    " by {
      var pre := PrefixOf(Width(4));
      assert |pre| == 4 && pre[0] == pre[1] == pre[2] == pre[3] == ' ';
    }
    WidthHasNoBreak(4);
    IndentLines(st, Width(4));
  }

  /** The result is `st` with one copy of the prefix per line. */
  lemma {:induction false} IndentLength(st: string, arg: IndentArg)
    ensures |Indent(st, arg)| == |st| + |SplitLines(st)| * |PrefixOf(arg)|
  {
    SplitLinesConcat(st);
    PrefixedLength(PrefixOf(arg), SplitLines(st));
  }

  lemma {:induction false} PrefixedLength(pre: string, ls: seq<string>)
    ensures |Concat(Prefixed(pre, ls))| == |Concat(ls)| + |ls| * |pre|
  {
    if ls != [] {
      PrefixedLength(pre, ls[1..]);
      assert Prefixed(pre, ls)[1..] == Prefixed(pre, ls[1..]);
      assert |ls| * |pre| == |pre| + (|ls| - 1) * |pre|;
    }
  }

  /** Indenting the empty text gives the empty text. */
  lemma IndentEmpty(arg: IndentArg)
    ensures Indent("", arg) == ""
  {
  }

  /** A text has one line per `'\n'`, plus one when it does not end in
      `'\n'` and is not empty. */
  lemma {:induction false} SplitLinesCount(st: string)
    ensures |SplitLines(st)|
         == Count(st, '\n') + (if st != [] && st[|st| - 1] != '\n' then 1 else 0)
    decreases |st|
  {
    if st != [] {
      var k := LineEnd(st);
      SplitLinesCount(st[k..]);
      FirstLineCount(st);
    }
  }

  /** Splitting off the first line: one more line, and the `'\n'`s of the
      first line plus those of the rest. */
  lemma FirstLineCount(st: string)
    requires st != []
    ensures var k := LineEnd(st); var rest := st[k..];
      && |SplitLines(st)| == 1 + |SplitLines(rest)|
      && Count(st, '\n') == (if st[k - 1] == '\n' then 1 else 0) + Count(rest, '\n')
      && (rest == [] ==> st[|st| - 1] == st[k - 1])
      && (rest != [] ==> st[k - 1] == '\n' && st[|st| - 1] == rest[|rest| - 1])
  {
    var k := LineEnd(st);
    var l, rest := st[..k], st[k..];
    assert Count(st, '\n') == Count(l, '\n') + Count(rest, '\n') by {
      assert st == l + rest;
      CountAppend(l, rest, '\n');
    }
    assert Count(l, '\n') == if st[k - 1] == '\n' then 1 else 0 by {
      assert IsLine(l) && l[|l| - 1] == st[k - 1];
      LineCount(l);
    }
    assert rest != [] ==> st[|st| - 1] == rest[|rest| - 1];
  }

  /** A single line holds one `'\n'` if it ends in one, and none otherwise. */
  lemma {:induction false} LineCount(l: string)
    requires IsLine(l)
    ensures Count(l, '\n') == if l[|l| - 1] == '\n' then 1 else 0
    decreases |l|
  {
    if |l| > 1 {
      assert l[0] != '\n';
      LineCount(l[1..]);
      assert l[1..][|l[1..]| - 1] == l[|l| - 1];
    } else {
      assert l[1..] == [];
    }
  }
}
