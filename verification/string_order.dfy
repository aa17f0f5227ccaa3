/**
 Go's ordering of strings and the sort of the distinct statistic dates.

 Go compares strings lexicographically by byte; the date keys are ASCII, so the
 order on characters used here coincides with it.
 */
module StringOrder {

  /** Go's `a < b` on strings: lexicographic, and a proper prefix sorts first. */
  predicate Less(a: string, b: string)
    decreases |a|
  {
    |b| > 0 && (|a| == 0 || a[0] < b[0] || (a[0] == b[0] && Less(a[1..], b[1..])))
  }

  lemma {:induction false} LessIrreflexive(a: string)
    ensures !Less(a, a)
    decreases |a|
  {
    if |a| > 0 {
      LessIrreflexive(a[1..]);
    }
  }

  lemma {:induction false} LessTransitive(a: string, b: string, c: string)
    requires Less(a, b) && Less(b, c)
    ensures Less(a, c)
    decreases |a|
  {
    if |a| > 0 && a[0] == b[0] && b[0] == c[0] {
      LessTransitive(a[1..], b[1..], c[1..]);
    }
  }

  lemma {:induction false} LessTotal(a: string, b: string)
    ensures a == b || Less(a, b) || Less(b, a)
    decreases |a|
  {
    if |a| > 0 && |b| > 0 && a[0] == b[0] {
      LessTotal(a[1..], b[1..]);
      if a[1..] == b[1..] {
        assert a == [a[0]] + a[1..] && b == [b[0]] + b[1..];
      }
    }
  }

  lemma LessAsymmetric(a: string, b: string)
    requires Less(a, b)
    ensures !Less(b, a)
  {
    if Less(b, a) {
      LessTransitive(a, b, a);
      LessIrreflexive(a);
    }
  }

  /** Two strings split at the same length compare by their first parts, then by the rest. */
  lemma {:induction false} LessConcat(a: string, b: string, c: string, d: string)
    requires |a| == |c|
    ensures Less(a + b, c + d) <==> Less(a, c) || (a == c && Less(b, d))
    decreases |a|
  {
    if |a| == 0 {
      assert a + b == b && c + d == d;
    } else {
      assert (a + b)[0] == a[0] && (c + d)[0] == c[0];
      assert (a + b)[1..] == a[1..] + b && (c + d)[1..] == c[1..] + d;
      LessConcat(a[1..], b, c[1..], d);
      assert a == [a[0]] + a[1..] && c == [c[0]] + c[1..];
    }
  }

  lemma ConcatAssoc(a: string, b: string, c: string)
    ensures a + b + c == a + (b + c)
  {
  }

  /** `a1 + sep + a2 + sep + a3`, regrouped from the right. */
  lemma JoinRegroup(a1: string, a2: string, a3: string, sep: string)
    ensures a1 + sep + a2 + sep + a3 == a1 + (sep + (a2 + (sep + a3)))
  {
    ConcatAssoc(a1 + sep + a2, sep, a3);
    ConcatAssoc(a1 + sep, a2, sep + a3);
    ConcatAssoc(a1, sep, a2 + (sep + a3));
  }

  /** Strings of three same-width fields joined by the same separator compare field by field. */
  lemma FieldsOrder(a1: string, a2: string, a3: string, b1: string, b2: string, b3: string, sep: string)
    requires |a1| == |b1| && |a2| == |b2| && |a3| == |b3|
    ensures Less(a1 + sep + a2 + sep + a3, b1 + sep + b2 + sep + b3)
            <==> Less(a1, b1) || (a1 == b1 && (Less(a2, b2) || (a2 == b2 && Less(a3, b3))))
  {
    JoinRegroup(a1, a2, a3, sep);
    JoinRegroup(b1, b2, b3, sep);
    var ta, tb := sep + a3, sep + b3;
    var ma, mb := a2 + ta, b2 + tb;
    LessConcat(a1, sep + ma, b1, sep + mb);
    LessConcat(sep, ma, sep, mb);
    LessConcat(a2, ta, b2, tb);
    LessConcat(sep, a3, sep, b3);
    LessIrreflexive(sep);
  }

  predicate StrictlySorted(xs: seq<string>) {
    forall i, j :: 0 <= i < j < |xs| ==> Less(xs[i], xs[j])
  }

  function Elems(xs: seq<string>): set<string> {
    set x | x in xs
  }

  /** A strictly sorted list holds no element twice. */
  lemma StrictlySortedDistinct(xs: seq<string>, i: int, j: int)
    requires StrictlySorted(xs)
    requires 0 <= i < |xs| && 0 <= j < |xs| && i != j
    ensures xs[i] != xs[j]
  {
    if i < j {
      LessIrreflexive(xs[i]);
    } else {
      LessIrreflexive(xs[j]);
    }
  }

  /** Inserts `x` into a strictly sorted list at its place; an element already present is not repeated. */
  function Insert(xs: seq<string>, x: string): (r: seq<string>)
    requires StrictlySorted(xs)
    ensures StrictlySorted(r)
    ensures Elems(r) == Elems(xs) + {x}
    ensures |r| == if x in xs then |xs| else |xs| + 1
  {
    if |xs| == 0 then [x]
    else if x == xs[0] then xs
    else if Less(x, xs[0]) then
      assert forall j :: 0 < j < |xs| ==> Less(x, xs[j]) by {
        forall j | 0 < j < |xs| {
          LessTransitive(x, xs[0], xs[j]);
        }
      }
      LessIrreflexive(x);
      assert x !in xs;
      [x] + xs
    else
      LessTotal(x, xs[0]);
      var rest := Insert(xs[1..], x);
      assert xs == [xs[0]] + xs[1..];
      assert x in xs <==> x in xs[1..];
      forall y | y in rest
        ensures Less(xs[0], y)
      {
        if y != x {
          assert y in Elems(rest);
          assert y in Elems(xs[1..]);
          var k :| 0 <= k < |xs[1..]| && xs[1..][k] == y;
          assert xs[k + 1] == y;
        }
      }
      assert Elems([xs[0]] + rest) == {xs[0]} + Elems(rest);
      [xs[0]] + rest
  }

  /** Two strictly sorted lists with the same elements are the same list. */
  lemma {:induction false} SortedUnique(xs: seq<string>, ys: seq<string>)
    requires StrictlySorted(xs) && StrictlySorted(ys)
    requires Elems(xs) == Elems(ys)
    ensures xs == ys
    decreases |xs|
  {
    if |xs| > 0 {
      assert xs[0] in Elems(xs);
    }
    if |ys| > 0 {
      assert ys[0] in Elems(ys);
    }
    if |xs| > 0 && |ys| > 0 {
      if xs[0] != ys[0] {
        var i :| 0 <= i < |ys| && ys[i] == xs[0];
        var j :| 0 <= j < |xs| && xs[j] == ys[0];
        LessAsymmetric(xs[0], ys[0]);
        assert false;
      }
      assert Elems(xs[1..]) == Elems(ys[1..]) by {
        assert xs == [xs[0]] + xs[1..] && ys == [ys[0]] + ys[1..];
        forall y | y in xs[1..] ensures y in ys[1..] {
          TailElement(xs, ys, y);
        }
        forall y | y in ys[1..] ensures y in xs[1..] {
          TailElement(ys, xs, y);
        }
      }
      SortedUnique(xs[1..], ys[1..]);
      assert xs == [xs[0]] + xs[1..] && ys == [ys[0]] + ys[1..];
    }
  }

  lemma TailElement(xs: seq<string>, ys: seq<string>, y: string)
    requires StrictlySorted(xs) && StrictlySorted(ys)
    requires Elems(xs) == Elems(ys)
    requires |xs| > 0 && |ys| > 0 && xs[0] == ys[0]
    requires y in xs[1..]
    ensures y in ys[1..]
  {
    var j :| 0 <= j < |xs[1..]| && xs[1..][j] == y;
    assert Less(xs[0], xs[j + 1]);
    LessIrreflexive(y);
    assert y in Elems(ys);
    var i :| 0 <= i < |ys| && ys[i] == y;
    assert i != 0;
    assert ys[1..][i - 1] == y;
  }

  /** Collects the keys of a map in whatever order the map yields them and sorts them ascending.
      The result does not depend on that order (see `SortedUnique`). */
  method SortedKeys<V>(m: map<string, V>) returns (keys: seq<string>)
    ensures StrictlySorted(keys)
    ensures Elems(keys) == m.Keys
    ensures |keys| == |m|
  {
    keys := [];
    var pending := m.Keys;
    while pending != {}
      invariant StrictlySorted(keys)
      invariant Elems(keys) + pending == m.Keys
      invariant Elems(keys) !! pending
      invariant |keys| + |pending| == |m.Keys|
      decreases |pending|
    {
      var k :| k in pending;
      keys := Insert(keys, k);
      pending := pending - {k};
    }
  }
}
