/** Python's `sorted()` on a set of strings: the ordering it uses and the list it returns. */
module Sorting {

  /** Python's `a <= b` on `str`: lexicographic by code point, a proper prefix first. */
  predicate LexLe(a: string, b: string)
    decreases |a|
  {
    a == [] || (b != [] && (a[0] < b[0] || (a[0] == b[0] && LexLe(a[1..], b[1..]))))
  }

  lemma {:induction false} LexLeReflexive(a: string)
    ensures LexLe(a, a)
    decreases |a|
  {
    if a != [] {
      LexLeReflexive(a[1..]);
    }
  }

  lemma {:induction false} LexLeTotal(a: string, b: string)
    ensures LexLe(a, b) || LexLe(b, a)
    decreases |a|
  {
    if a != [] && b != [] && a[0] == b[0] {
      LexLeTotal(a[1..], b[1..]);
    }
  }

  lemma {:induction false} LexLeAntisymmetric(a: string, b: string)
    requires LexLe(a, b) && LexLe(b, a)
    ensures a == b
    decreases |a|
  {
    if a != [] {
      LexLeAntisymmetric(a[1..], b[1..]);
      assert a == [a[0]] + a[1..] && b == [b[0]] + b[1..];
    }
  }

  lemma {:induction false} LexLeTransitive(a: string, b: string, c: string)
    requires LexLe(a, b) && LexLe(b, c)
    ensures LexLe(a, c)
    decreases |a|
  {
    if a != [] && a[0] == b[0] && b[0] == c[0] {
      LexLeTransitive(a[1..], b[1..], c[1..]);
    }
  }

  /** The least string of a non-empty set. */
  ghost function MinOf(s: set<string>): (m: string)
    requires s != {}
    ensures m in s && forall x :: x in s ==> LexLe(m, x)
    decreases |s|
  {
    var y :| y in s;
    LexLeReflexive(y);
    if s == {y} then
      y
    else
      var m' := MinOf(s - {y});
      LexLeTotal(y, m');
      if LexLe(y, m') then
        assert forall x :: x in s - {y} ==> LexLe(y, x) by {
          forall x | x in s - {y} ensures LexLe(y, x) { LexLeTransitive(y, m', x); }
        }
        y
      else
        m'
  }

  /** Every string of `r` comes strictly before every later one. */
  predicate StrictlyIncreasing(r: seq<string>) {
    forall i, j :: 0 <= i < j < |r| ==> LexLe(r[i], r[j]) && r[i] != r[j]
  }

  /** `sorted(s)`: the elements of `s` in strictly increasing order. */
  ghost function SortedSeq(s: set<string>): (r: seq<string>)
    ensures |r| == |s|
    ensures forall x :: x in r <==> x in s
    ensures StrictlyIncreasing(r)
    decreases |s|
  {
    if s == {} then []
    else
      var m := MinOf(s);
      var rest := SortedSeq(s - {m});
      assert StrictlyIncreasing([m] + rest) by {
        forall i, j | 0 <= i < j < |rest| + 1
          ensures LexLe(([m] + rest)[i], ([m] + rest)[j]) && ([m] + rest)[i] != ([m] + rest)[j]
        {
          assert rest[j - 1] in s - {m};
          if i > 0 {
            assert ([m] + rest)[i] == rest[i - 1];
          }
        }
      }
      [m] + rest
  }

  /** The elements of `sorted(s)` are those of `s`. */
  lemma SortedElements(s: set<string>)
    ensures (set x | x in SortedSeq(s)) == s
  {
  }

  /** A strictly increasing listing of the elements of `s` is `SortedSeq(s)`: the sorted
      list of a set is determined by the set alone. */
  lemma {:induction false} SortedSeqUnique(s: set<string>, r: seq<string>)
    requires forall x :: x in r <==> x in s
    requires StrictlyIncreasing(r)
    ensures r == SortedSeq(s)
    decreases |r|
  {
    if r == [] {
      assert s == {};
    } else {
      var m, tail := r[0], r[1..];
      assert s != {} && m == MinOf(s) && tail == SortedSeq(s - {m}) by {
        HeadIsMin(s, r);
        TailListing(s, r);
        SortedSeqUnique(s - {m}, tail);
      }
      SortedSeqCons(s, tail);
      assert r == [m] + tail;
    }
  }

  /** `SortedSeq` unfolded once. */
  lemma SortedSeqCons(s: set<string>, tail: seq<string>)
    requires s != {} && tail == SortedSeq(s - {MinOf(s)})
    ensures SortedSeq(s) == [MinOf(s)] + tail
  {
  }

  /** Dropping the head of a strictly increasing listing of `s` lists the rest of `s`. */
  lemma TailListing(s: set<string>, r: seq<string>)
    requires r != []
    requires forall x :: x in r <==> x in s
    requires StrictlyIncreasing(r)
    ensures forall x :: x in r[1..] <==> x in s - {r[0]}
    ensures StrictlyIncreasing(r[1..])
  {
    var tail := r[1..];
    forall i, j | 0 <= i < j < |tail| ensures LexLe(tail[i], tail[j]) && tail[i] != tail[j] {
      assert tail[i] == r[i + 1] && tail[j] == r[j + 1];
    }
    forall x ensures x in tail <==> x in s - {r[0]} {
      if x in tail {
        var i :| 0 <= i < |tail| && tail[i] == x;
        assert r[0] != r[i + 1];
      }
      if x in s - {r[0]} {
        var i :| 0 <= i < |r| && r[i] == x;
        assert tail[i - 1] == x;
      }
    }
  }

  /** The first element of a strictly increasing listing of `s` is the least element of `s`. */
  lemma HeadIsMin(s: set<string>, r: seq<string>)
    requires r != []
    requires forall x :: x in r <==> x in s
    requires StrictlyIncreasing(r)
    ensures s != {} && r[0] == MinOf(s)
  {
    assert r[0] in s;
    var m := MinOf(s);
    assert m in r;
    var k :| 0 <= k < |r| && r[k] == m;
    if k > 0 {
      assert LexLe(r[0], r[k]) && r[0] != r[k];
      LexLeAntisymmetric(r[0], m);
    }
  }

  /** `m` is the least string of `s`. */
  predicate IsLeast(m: string, s: set<string>) {
    m in s && forall x :: x in s ==> LexLe(m, x)
  }

  /** Taking the least remaining string extends the sorted prefix by one. */
  lemma SortStep(r: seq<string>, rest: set<string>, m: string)
    requires IsLeast(m, rest)
    ensures (r + [m]) + SortedSeq(rest - {m}) == r + SortedSeq(rest)
  {
    var w := MinOf(rest);
    LexLeAntisymmetric(m, w);
    assert SortedSeq(rest) == [m] + SortedSeq(rest - {m});
  }

  /** Builds `sorted(s)` by repeatedly taking the least remaining string. */
  method SortStrings(s: set<string>) returns (r: seq<string>)
    ensures r == SortedSeq(s)
  {
    r := [];
    var rest := s;
    while rest != {}
      invariant r + SortedSeq(rest) == SortedSeq(s)
      decreases |rest|
    {
      assert IsLeast(MinOf(rest), rest);
      var m :| IsLeast(m, rest);
      SortStep(r, rest, m);
      r := r + [m];
      rest := rest - {m};
    }
  }
}
