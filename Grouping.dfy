/** The digit grouper: `rpartition` cuts a sequence into groups of `n` counted
    from the right, and `_fix_int` joins those groups with commas. */
module Grouping {
  import opened Strings

  /** The groups `rpartition(s, n)` returns: the last `n` elements form the
      last group, and so on leftwards; only the first group may be shorter.
      For `n <= 0` and a nonempty `s` the source loops forever, hence the
      requires. */
  function RPartition<T>(s: seq<T>, n: int): (gs: seq<seq<T>>)
    requires 0 < n || s == []
    decreases |s|
  {
    if s == [] then []
    else if |s| <= n then [s]
    else RPartition(s[..|s| - n], n) + [s[|s| - n..]]
  }

  /** The loop of `rpartition`: pop up to `n` elements off the end of a
      working copy, append the reversed batch to `out`, and finally reverse
      `out`. */
  method RPartitionLoop<T>(s: seq<T>, n: int) returns (groups: seq<seq<T>>)
    requires 0 < n || s == []
    ensures groups == RPartition(s, n)
  {
    var rest := s;
    var out: seq<seq<T>> := [];
    while rest != []
      invariant RPartition(s, n) == RPartition(rest, n) + Reverse(out)
      decreases |rest|
    {
      ghost var before := rest;
      var batch: seq<T> := [];
      for k := 0 to n
        invariant |batch| == k <= |before|
        invariant rest == before[..|before| - k]
        invariant batch == Reverse(before[|before| - k..])
      {
        if rest == [] {
          break;
        }
        PopLast(before, k, rest, batch);
        batch := batch + [rest[|rest| - 1]];
        rest := rest[..|rest| - 1];
      }
      LastGroup(before, n, rest, batch);
      MoveLast(RPartition(s, n), RPartition(before, n), RPartition(rest, n), out, Reverse(batch));
      out := out + [Reverse(batch)];
    }
    groups := Reverse(out);
  }

  /** Popping one more element off `rest` extends the reversed batch by it. */
  lemma PopLast<T>(before: seq<T>, k: nat, rest: seq<T>, batch: seq<T>)
    requires k < |before| && rest == before[..|before| - k]
    requires batch == Reverse(before[|before| - k..])
    ensures rest != [] && rest[..|rest| - 1] == before[..|before| - (k + 1)]
    ensures batch + [rest[|rest| - 1]] == Reverse(before[|before| - (k + 1)..])
  {
    var t := before[|before| - k..];
    assert before[|before| - (k + 1)..] == [before[|before| - k - 1]] + t;
    ReverseCons(before[|before| - k - 1], t);
  }

  /** After the inner loop the reversed batch is the last group of what was
      left before it. */
  lemma LastGroup<T>(before: seq<T>, n: int, rest: seq<T>, batch: seq<T>)
    requires 0 < n && before != []
    requires |batch| <= |before| && |batch| <= n && (|batch| == n || rest == [])
    requires rest == before[..|before| - |batch|]
    requires batch == Reverse(before[|before| - |batch|..])
    ensures RPartition(before, n) == RPartition(rest, n) + [Reverse(batch)]
  {
    var m := |batch|;
    var last := before[|before| - m..];
    assert 0 < m && (m == n || m == |before|);
    RPartitionSplit(before, m, n);
    ReverseReverse(last);
  }

  lemma MoveLast<T>(all: seq<T>, front: seq<T>, init: seq<T>, out: seq<T>, last: T)
    requires all == front + Reverse(out) && front == init + [last]
    ensures all == init + Reverse(out + [last])
  {
    ReverseAppend(out, last);
  }

  /** One round of the outer loop: popping `m` elements, where `m` is `n` or
      all that is left, splits off the last group. */
  lemma RPartitionSplit<T>(s: seq<T>, m: int, n: int)
    requires 0 < m <= n && m <= |s| && (m == n || m == |s|)
    ensures RPartition(s, n) == RPartition(s[..|s| - m], n) + [s[|s| - m..]]
  {
    if |s| <= n {
      assert m == |s|;
      assert s[..|s| - m] == [] && s[|s| - m..] == s;
      assert RPartition(s, n) == [s];
      assert RPartition<T>([], n) == [];
    } else {
      assert m == n;
    }
  }

  /** Every group but the first has exactly `n` elements, the first has 1 to `n`. */
  ghost predicate IsGrouping<T>(gs: seq<seq<T>>, n: int)
  {
    (gs != [] ==> 1 <= |gs[0]| <= n) &&
    forall i :: 0 < i < |gs| ==> |gs[i]| == n
  }

  /** Concatenating the groups in order gives back the input. */
  lemma {:induction false} RPartitionConcat<T>(s: seq<T>, n: int)
    requires 0 < n || s == []
    ensures Concat(RPartition(s, n)) == s
  {
    if s != [] && |s| > n {
      RPartitionConcat(s[..|s| - n], n);
      ConcatAppend(RPartition(s[..|s| - n], n), s[|s| - n..]);
      assert s[..|s| - n] + s[|s| - n..] == s;
    }
  }

  /** The groups have the sizes of a grouping from the right, and there are
      none exactly when the input is empty. */
  lemma {:induction false} RPartitionShape<T>(s: seq<T>, n: int)
    requires 0 < n || s == []
    ensures RPartition(s, n) == [] <==> s == []
    ensures IsGrouping(RPartition(s, n), n)
    ensures s != [] ==> |s| == |RPartition(s, n)[0]| + (|RPartition(s, n)| - 1) * n
  {
    if s != [] && |s| > n {
      var prefix := s[..|s| - n];
      RPartitionShape(prefix, n);
      var gs := RPartition(prefix, n);
      assert RPartition(s, n) == gs + [s[|s| - n..]];
      assert |(gs + [s[|s| - n..]])| == |gs| + 1;
    }
  }

  /** A grouping from the right is unique: any groups of those sizes whose
      concatenation is `s` are the groups `rpartition` returns. */
  lemma {:induction false} RPartitionUnique<T>(s: seq<T>, n: int, gs: seq<seq<T>>)
    requires 0 < n
    requires Concat(gs) == s && IsGrouping(gs, n)
    ensures gs == RPartition(s, n)
  {
    if gs == [] {
    } else if |gs| == 1 {
      assert Concat(gs) == gs[0] + Concat(gs[1..]);
      assert s == gs[0];
    } else {
      var init := gs[..|gs| - 1];
      var last := gs[|gs| - 1];
      assert gs == init + [last];
      ConcatAppend(init, last);
      assert IsGrouping(init, n) by {
        assert init[0] == gs[0];
        forall i | 0 < i < |init| ensures |init[i]| == n {
          assert init[i] == gs[i];
        }
      }
      assert Concat(init) == init[0] + Concat(init[1..]);
      assert |last| == n && |s| > n;
      assert Concat(init) == s[..|s| - n] && last == s[|s| - n..];
      RPartitionUnique(s[..|s| - n], n, init);
    }
  }

  /** `_fix_int(s, n)`: the groups of `s` joined with commas. */
  function FixInt(s: string, n: int): (r: string)
    requires 0 < n || s == []
  {
    Join(",", RPartition(s, n))
  }

  lemma {:induction false} JoinWithout<T>(c: T, parts: seq<seq<T>>)
    requires Free(parts, c)
    ensures Without(Join([c], parts), c) == Concat(parts)
  {
    if parts == [] {
    } else if |parts| == 1 {
      var p := parts[0];
      CountAbsent(p, c);
      assert Concat(parts[1..]) == [];
    } else {
      var p := parts[0];
      var rest := parts[1..];
      CountAbsent(p, c);
      assert Free(rest, c) by {
        forall i | 0 <= i < |rest| ensures c !in rest[i] {
          assert rest[i] == parts[i + 1];
        }
      }
      JoinWithout(c, rest);
      WithoutSeparator(p, c, Join([c], rest));
    }
  }

  lemma WithoutSeparator<T>(p: seq<T>, c: T, tail: seq<T>)
    requires c !in p
    ensures Without(p + [c] + tail, c) == p + Without(tail, c)
  {
    var one: seq<T> := [c];
    assert Without(p + one, c) == p by {
      assert Without(one, c) == [] by {
        assert one[1..] == [];
      }
      CountAbsent(p, c);
      WithoutAppend(p, one, c);
      assert p + [] == p;
    }
    WithoutAppend(p + one, tail, c);
  }

  lemma {:induction false} JoinCount<T>(c: T, parts: seq<seq<T>>)
    requires parts != [] && Free(parts, c)
    ensures Count(Join([c], parts), c) == |parts| - 1
  {
    CountAbsent(parts[0], c);
    if |parts| > 1 {
      JoinCount(c, parts[1..]);
      CountAppend(parts[0] + [c], Join([c], parts[1..]), c);
      CountAppend(parts[0], [c], c);
      assert Count([c], c) == 1;
    }
  }

  lemma {:induction false} JoinStart<T>(c: T, parts: seq<seq<T>>)
    requires parts != [] && parts[0] != []
    ensures Join([c], parts) != [] && Join([c], parts)[0] == parts[0][0]
  {
  }

  /** With nonempty parts free of `c`, every `c` in the joined result has a
      non-`c` neighbour on each side: none at either end, no two adjacent. */
  lemma {:induction false} JoinSeparated<T>(c: T, parts: seq<seq<T>>)
    requires Free(parts, c)
    requires forall i :: 0 <= i < |parts| ==> parts[i] != []
    ensures var r := Join([c], parts);
      forall i :: 0 <= i < |r| && r[i] == c ==> 0 < i < |r| - 1 && r[i + 1] != c
  {
    if |parts| > 1 {
      var p := parts[0];
      var rest := parts[1..];
      var tail := Join([c], rest);
      JoinSeparated(c, rest);
      JoinStart(c, rest);
      var r := Join([c], parts);
      assert r == p + [c] + tail;
      assert forall i :: 0 <= i < |p| ==> r[i] == p[i] && p[i] != c;
      forall i | 0 <= i < |r| && r[i] == c
        ensures 0 < i < |r| - 1 && r[i + 1] != c
      {
        if i == |p| {
          assert r[i + 1] == tail[0];
        } else {
          assert r[i] == tail[i - |p| - 1];
          assert r[i + 1] == tail[i - |p|];
        }
      }
    } else if |parts| == 1 {
      var r := Join([c], parts);
      assert r == parts[0];
    }
  }

  /** `_fix_int(s, n)` on a comma-free string: deleting the commas gives `s`
      back, there are `(|s| - 1) / n` commas, and every comma sits between
      two non-comma characters. */
  lemma FixIntProperties(s: string, n: int)
    requires 0 < n && s != [] && ',' !in s
    ensures Without(FixInt(s, n), ',') == s
    ensures Count(FixInt(s, n), ',') == (|s| - 1) / n
    ensures var r := FixInt(s, n);
      forall i :: 0 <= i < |r| && r[i] == ',' ==> 0 < i < |r| - 1 && r[i + 1] != ','
  {
    var gs := RPartition(s, n);
    RPartitionConcat(s, n);
    RPartitionShape(s, n);
    assert Free(gs, ',') && forall i :: 0 <= i < |gs| ==> gs[i] != [] by {
      forall i | 0 <= i < |gs| ensures ',' !in gs[i] && gs[i] != [] {
        GroupInside(s, n, i);
      }
    }
    JoinWithout(',', gs);
    JoinCount(',', gs);
    JoinSeparated(',', gs);
    DivExact(|s| - 1, |gs| - 1, |gs[0]| - 1, n);
  }

  /** At most three characters forms a single group. */
  lemma FixIntShort(d: string)
    requires 1 <= |d| <= 3
    ensures FixInt(d, 3) == d
  {
    assert RPartition(d, 3) == [d];
  }

  /** A string of four to six characters gets one comma, three characters
      from its right end. */
  lemma FixIntOneComma(d: string)
    requires 4 <= |d| <= 6
    ensures FixInt(d, 3) == d[..|d| - 3] + "," + d[|d| - 3..]
  {
    var head := d[..|d| - 3];
    var tail := d[|d| - 3..];
    assert RPartition(head, 3) == [head];
    assert RPartition(d, 3) == [head] + [tail];
    var gs := [head, tail];
    assert gs[1..] == [tail];
    assert Join(",", gs) == head + "," + Join(",", [tail]);
  }

  /** Each group is nonempty, and every element of it occurs in `s`. */
  lemma {:induction false} GroupInside<T>(s: seq<T>, n: int, i: int)
    requires 0 < n && 0 <= i < |RPartition(s, n)|
    ensures RPartition(s, n)[i] != []
    ensures forall x :: x in RPartition(s, n)[i] ==> x in s
  {
    if |s| > n {
      var prefix := s[..|s| - n];
      if i < |RPartition(prefix, n)| {
        GroupInside(prefix, n, i);
      }
    }
  }

  lemma DivExact(a: int, q: int, r: int, n: int)
    requires 0 < n && 0 <= r < n && a == q * n + r
    ensures a / n == q
  {
    var d := q - a / n;
    assert a == (a / n) * n + a % n;
    assert d * n == a % n - r;
    if d > 0 {
      MulAtLeast(d, n);
    }
  }

  lemma {:induction false} MulAtLeast(k: int, n: int)
    requires 1 <= k && 0 < n
    ensures k * n >= n
  {
    if k > 1 {
      MulAtLeast(k - 1, n);
      assert k * n == (k - 1) * n + n;
    }
  }
}
