/**
 * Vertex labels of the undirected graph and the order `list.sort()` puts
 * them in. Labels are strings; Python compares strings code point by code
 * point, and a proper prefix comes before any longer string.
 */
module Labels {

  import opened Basics

  type Label = string

  /** Python's `a < b` on `str`. */
  predicate Less(a: Label, b: Label)
    decreases |a|
  {
    if |a| == 0 then |b| > 0
    else if |b| == 0 then false
    else if a[0] != b[0] then a[0] < b[0]
    else Less(a[1..], b[1..])
  }

  /** `a <= b`. */
  predicate LessOrEqual(a: Label, b: Label)
  {
    a == b || Less(a, b)
  }

  lemma {:induction false} LessIrreflexive(a: Label)
    ensures !Less(a, a)
    decreases |a|
  {
    if |a| > 0 {
      LessIrreflexive(a[1..]);
    }
  }

  lemma {:induction false} LessAsymmetric(a: Label, b: Label)
    requires Less(a, b)
    ensures !Less(b, a)
    decreases |a|
  {
    if |a| > 0 && |b| > 0 && a[0] == b[0] {
      LessAsymmetric(a[1..], b[1..]);
    }
  }

  lemma {:induction false} LessTransitive(a: Label, b: Label, c: Label)
    requires Less(a, b) && Less(b, c)
    ensures Less(a, c)
    decreases |a|
  {
    if |a| > 0 && a[0] == b[0] && b[0] == c[0] {
      LessTransitive(a[1..], b[1..], c[1..]);
    }
  }

  /** Any two different labels are ordered one way or the other. */
  lemma {:induction false} LessTotal(a: Label, b: Label)
    requires a != b
    ensures Less(a, b) || Less(b, a)
    decreases |a|
  {
    if |a| > 0 && |b| > 0 && a[0] == b[0] {
      assert a == [a[0]] + a[1..] && b == [b[0]] + b[1..];
      LessTotal(a[1..], b[1..]);
    }
  }

  lemma LessOrEqualTransitive(a: Label, b: Label, c: Label)
    requires LessOrEqual(a, b) && LessOrEqual(b, c)
    ensures LessOrEqual(a, c)
  {
    if a != b && b != c {
      LessTransitive(a, b, c);
    }
  }

  lemma LessOrEqualAntisymmetric(a: Label, b: Label)
    requires LessOrEqual(a, b) && LessOrEqual(b, a)
    ensures a == b
  {
    if a != b {
      LessAsymmetric(a, b);
    }
  }

  /** Ascending order, as `list.sort()` leaves a list. */
  predicate Sorted(s: seq<Label>)
  {
    forall i, j :: 0 <= i < j < |s| ==> LessOrEqual(s[i], s[j])
  }

  /** Puts `x` into an ascending list at its place. */
  function Insert(x: Label, s: seq<Label>): (r: seq<Label>)
    ensures multiset(r) == multiset(s) + multiset{x}
  {
    if s == [] || LessOrEqual(x, s[0]) then [x] + s
    else
      assert s == [s[0]] + s[1..];
      [s[0]] + Insert(x, s[1..])
  }

  /** Every element of `t` is at least `y`. */
  predicate AllAtLeast(y: Label, t: seq<Label>)
  {
    forall k :: 0 <= k < |t| ==> LessOrEqual(y, t[k])
  }

  lemma SortedCons(y: Label, t: seq<Label>)
    requires AllAtLeast(y, t) && Sorted(t)
    ensures Sorted([y] + t)
  {
    forall i, j | 0 <= i < j < |[y] + t| ensures LessOrEqual(([y] + t)[i], ([y] + t)[j]) {
      if i == 0 {
        assert ([y] + t)[j] == t[j - 1];
      } else {
        assert ([y] + t)[i] == t[i - 1] && ([y] + t)[j] == t[j - 1];
      }
    }
  }

  lemma {:induction false} InsertSorted(x: Label, s: seq<Label>)
    requires Sorted(s)
    ensures Sorted(Insert(x, s))
    ensures forall y :: AllAtLeast(y, s) && LessOrEqual(y, x) ==> AllAtLeast(y, Insert(x, s))
  {
    if s == [] {
    } else if LessOrEqual(x, s[0]) {
      assert AllAtLeast(x, s) by {
        forall k | 0 <= k < |s| ensures LessOrEqual(x, s[k]) {
          if k > 0 {
            assert LessOrEqual(s[0], s[k]);
            LessOrEqualTransitive(x, s[0], s[k]);
          }
        }
      }
      SortedCons(x, s);
      forall y | AllAtLeast(y, s) && LessOrEqual(y, x) ensures AllAtLeast(y, Insert(x, s)) {
        assert Insert(x, s) == [x] + s;
      }
    } else {
      var tail := s[1..];
      assert Sorted(tail) by {
        forall i, j | 0 <= i < j < |tail| ensures LessOrEqual(tail[i], tail[j]) {
          assert tail[i] == s[i + 1] && tail[j] == s[j + 1];
        }
      }
      InsertSorted(x, tail);
      LessTotal(x, s[0]);
      assert AllAtLeast(s[0], tail) by {
        forall k | 0 <= k < |tail| ensures LessOrEqual(s[0], tail[k]) {
          assert tail[k] == s[k + 1];
        }
      }
      var t := Insert(x, tail);
      assert AllAtLeast(s[0], t);
      SortedCons(s[0], t);
      assert Insert(x, s) == [s[0]] + t;
      forall y | AllAtLeast(y, s) && LessOrEqual(y, x) ensures AllAtLeast(y, Insert(x, s)) {
        assert LessOrEqual(y, s[0]);
        assert AllAtLeast(y, tail) by {
          forall k | 0 <= k < |tail| ensures LessOrEqual(y, tail[k]) {
            assert tail[k] == s[k + 1];
          }
        }
        assert AllAtLeast(y, t);
      }
    }
  }

  /** `list.sort()` on labels: the same labels in ascending order. */
  function Sort(s: seq<Label>): (r: seq<Label>)
    ensures Sorted(r)
    ensures multiset(r) == multiset(s)
  {
    if s == [] then []
    else
      assert s == [s[0]] + s[1..];
      InsertSorted(s[0], Sort(s[1..]));
      Insert(s[0], Sort(s[1..]))
  }

  /**
   * An ascending list is determined by its elements: sorting a list that
   * was already sorted, or a permutation of it, gives the same list.
   */
  lemma {:induction false} SortedUnique(a: seq<Label>, b: seq<Label>)
    requires Sorted(a) && Sorted(b)
    requires multiset(a) == multiset(b)
    ensures a == b
    decreases |a|
  {
    if a == [] {
      assert |multiset(b)| == 0;
    } else {
      assert |b| == |multiset(b)| == |multiset(a)| == |a|;
      SortedHeadLeast(a, b);
      SortedHeadLeast(b, a);
      LessOrEqualAntisymmetric(a[0], b[0]);
      SortedTail(a);
      SortedTail(b);
      assert a == [a[0]] + a[1..] && b == [b[0]] + b[1..];
      assert multiset(a[1..]) == multiset(a) - multiset{a[0]};
      assert multiset(b[1..]) == multiset(b) - multiset{b[0]};
      SortedUnique(a[1..], b[1..]);
    }
  }

  /** The head of an ascending list is below every element of any permutation of it. */
  lemma SortedHeadLeast(a: seq<Label>, b: seq<Label>)
    requires Sorted(a) && a != [] && b != []
    requires multiset(a) == multiset(b)
    ensures LessOrEqual(a[0], b[0])
  {
    assert b[0] in multiset(a);
    var l :| 0 <= l < |a| && a[l] == b[0];
    if l > 0 {
      assert LessOrEqual(a[0], a[l]);
    }
  }

  lemma SortedTail(a: seq<Label>)
    requires Sorted(a) && a != []
    ensures Sorted(a[1..])
  {
    forall i, j | 0 <= i < j < |a[1..]| ensures LessOrEqual(a[1..][i], a[1..][j]) {
      assert a[1..][i] == a[i + 1] && a[1..][j] == a[j + 1];
    }
  }

  /** Sorting keeps membership and length. */
  lemma SortKeepsElements(s: seq<Label>)
    ensures forall x :: x in Sort(s) <==> x in s
    ensures |Sort(s)| == |s|
  {
    var r := Sort(s);
    assert |r| == |multiset(r)| == |multiset(s)| == |s|;
    forall x ensures x in r <==> x in s {
      assert x in r <==> x in multiset(r);
      assert x in s <==> x in multiset(s);
    }
  }

  /** Sorting keeps the set of elements. */
  lemma SortKeepsSet(s: seq<Label>)
    ensures Elements(Sort(s)) == Elements(s)
  {
    SortKeepsElements(s);
  }

  /** Sorting a list with no repetitions gives a list with no repetitions. */
  lemma SortDistinct(s: seq<Label>)
    ensures NoDuplicates(s) ==> NoDuplicates(Sort(s))
  {
    if NoDuplicates(s) {
      var r := Sort(s);
      forall i, j | 0 <= i < j < |r| ensures r[i] != r[j] {
        if r[i] == r[j] {
          RepeatCount(r, i, j);
          CountAtMostOne(s, r[i]);
          assert false;
        }
      }
    }
  }

  lemma RepeatCount<T>(r: seq<T>, i: nat, j: nat)
    requires i < j < |r| && r[i] == r[j]
    ensures multiset(r)[r[i]] >= 2
  {
    assert r == r[..j] + r[j..];
    assert r[i] in r[..j] && r[j] == r[j..][0];
    assert multiset(r) == multiset(r[..j]) + multiset(r[j..]);
  }

  lemma {:induction false} CountAtMostOne<T>(s: seq<T>, x: T)
    requires NoDuplicates(s)
    ensures multiset(s)[x] <= 1
  {
    if s != [] {
      assert s == [s[0]] + s[1..];
      assert NoDuplicates(s[1..]) by {
        forall i, j | 0 <= i < j < |s[1..]| ensures s[1..][i] != s[1..][j] {
          assert s[1..][i] == s[i + 1] && s[1..][j] == s[j + 1];
        }
      }
      CountAtMostOne(s[1..], x);
      assert multiset(s) == multiset{s[0]} + multiset(s[1..]);
    }
  }
}
