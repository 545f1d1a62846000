/**
  Ordering, sorting and filtering of strings, as Ruby's `Array#sort` and
  `Array#-` use them on lists of directory names.
 */
module Strings {

  /** Ruby's `String#<=>` as a strict order: `a` is a proper prefix of `b`,
      or the two first differ at a character that is smaller in `a`. */
  predicate Less(a: string, b: string)
  {
    if |a| == 0 then |b| > 0
    else if |b| == 0 then false
    else if a[0] == b[0] then Less(a[1..], b[1..])
    else a[0] < b[0]
  }

  predicate LessEq(a: string, b: string)
  {
    a == b || Less(a, b)
  }

  lemma {:induction false} LessIrreflexive(a: string)
    ensures !Less(a, a)
  {
    if |a| > 0 {
      LessIrreflexive(a[1..]);
    }
  }

  lemma {:induction false} LessAsymmetric(a: string, b: string)
    requires Less(a, b)
    ensures !Less(b, a)
  {
    if |a| > 0 && |b| > 0 && a[0] == b[0] {
      LessAsymmetric(a[1..], b[1..]);
    }
  }

  lemma {:induction false} LessTransitive(a: string, b: string, c: string)
    requires Less(a, b) && Less(b, c)
    ensures Less(a, c)
  {
    if |a| > 0 && a[0] == b[0] && b[0] == c[0] {
      LessTransitive(a[1..], b[1..], c[1..]);
    }
  }

  lemma {:induction false} LessTotal(a: string, b: string)
    ensures a == b || Less(a, b) || Less(b, a)
  {
    if |a| > 0 && |b| > 0 && a[0] == b[0] {
      LessTotal(a[1..], b[1..]);
      assert a == [a[0]] + a[1..] && b == [b[0]] + b[1..];
    }
  }

  lemma LessEqTransitive(a: string, b: string, c: string)
    requires LessEq(a, b) && LessEq(b, c)
    ensures LessEq(a, c)
  {
    if a != b && b != c {
      LessTransitive(a, b, c);
    }
  }

  lemma LessEqAntisymmetric(a: string, b: string)
    requires LessEq(a, b) && LessEq(b, a)
    ensures a == b
  {
    if a != b {
      LessAsymmetric(a, b);
    }
  }

  /** A common prefix does not change the order. */
  lemma {:induction false} LessCommonPrefix(p: string, x: string, y: string)
    ensures Less(p + x, p + y) <==> Less(x, y)
  {
    if |p| > 0 {
      assert (p + x)[0] == p[0] == (p + y)[0];
      assert (p + x)[1..] == p[1..] + x;
      assert (p + y)[1..] == p[1..] + y;
      LessCommonPrefix(p[1..], x, y);
    } else {
      assert p + x == x && p + y == y;
    }
  }

  /** When two strings start with different parts of one width, those parts
      decide the order, whatever follows them. */
  lemma {:induction false} LessDifferentHeads(a1: string, b1: string, a2: string, b2: string)
    requires |a1| == |a2| && a1 != a2
    ensures Less(a1 + b1, a2 + b2) <==> Less(a1, a2)
  {
    assert |a1| > 0;
    assert a1 == [a1[0]] + a1[1..] && a2 == [a2[0]] + a2[1..];
    assert (a1 + b1)[0] == a1[0] && (a2 + b2)[0] == a2[0];
    if a1[0] == a2[0] {
      assert a1[1..] != a2[1..];
      assert (a1 + b1)[1..] == a1[1..] + b1;
      assert (a2 + b2)[1..] == a2[1..] + b2;
      LessDifferentHeads(a1[1..], b1, a2[1..], b2);
    }
  }

  // ---------------------------------------------------------------------
  // Sorting (Ruby's Array#sort on strings)
  // ---------------------------------------------------------------------

  predicate Sorted(s: seq<string>)
  {
    forall i, j :: 0 <= i < j < |s| ==> LessEq(s[i], s[j])
  }

  predicate Distinct<T(==)>(s: seq<T>)
  {
    forall i, j :: 0 <= i < j < |s| ==> s[i] != s[j]
  }

  /** Inserts `x` before the first element it does not exceed. */
  function Insert(x: string, s: seq<string>): seq<string>
  {
    if s == [] then [x]
    else if LessEq(x, s[0]) then [x] + s
    else [s[0]] + Insert(x, s[1..])
  }

  /** Insertion sort. */
  function Sort(s: seq<string>): seq<string>
  {
    if s == [] then [] else Insert(s[0], Sort(s[1..]))
  }

  lemma SortedCons(a: string, t: seq<string>)
    requires Sorted(t)
    requires forall j :: 0 <= j < |t| ==> LessEq(a, t[j])
    ensures Sorted([a] + t)
  {
    var s := [a] + t;
    forall i, j | 0 <= i < j < |s| ensures LessEq(s[i], s[j]) {
      if i > 0 {
        assert s[i] == t[i - 1] && s[j] == t[j - 1];
      } else {
        assert s[j] == t[j - 1];
      }
    }
  }

  lemma {:induction false} InsertPermutation(x: string, s: seq<string>)
    ensures multiset(Insert(x, s)) == multiset(s) + multiset{x}
  {
    if s != [] && !LessEq(x, s[0]) {
      InsertPermutation(x, s[1..]);
      assert s == [s[0]] + s[1..];
    }
  }

  /** A lower bound of `x` and of every element of `s` bounds every element
      of `Insert(x, s)`. */
  lemma InsertBound(y: string, x: string, s: seq<string>)
    requires LessEq(y, x) && forall k :: 0 <= k < |s| ==> LessEq(y, s[k])
    ensures forall j :: 0 <= j < |Insert(x, s)| ==> LessEq(y, Insert(x, s)[j])
  {
    var t := Insert(x, s);
    InsertPermutation(x, s);
    forall j | 0 <= j < |t| ensures LessEq(y, t[j]) {
      assert t[j] in multiset(t);
      if t[j] != x {
        assert t[j] in multiset(s);
      }
    }
  }

  lemma {:induction false} InsertSortedPermutation(x: string, s: seq<string>)
    requires Sorted(s)
    ensures Sorted(Insert(x, s))
    ensures multiset(Insert(x, s)) == multiset(s) + multiset{x}
  {
    InsertPermutation(x, s);
    if s == [] {
    } else if LessEq(x, s[0]) {
      forall j | 0 <= j < |s| ensures LessEq(x, s[j]) {
        if j > 0 {
          LessEqTransitive(x, s[0], s[j]);
        }
      }
      SortedCons(x, s);
    } else {
      var tail := s[1..];
      SortedTail(s);
      InsertSortedPermutation(x, tail);
      LessTotal(x, s[0]);
      InsertBound(s[0], x, tail);
      SortedCons(s[0], Insert(x, tail));
    }
  }

  /** `releases` sorts the listing: the result is in ascending order and is
      a permutation of the input. */
  lemma {:induction false} SortSortedPermutation(s: seq<string>)
    ensures Sorted(Sort(s))
    ensures multiset(Sort(s)) == multiset(s)
  {
    if s != [] {
      SortSortedPermutation(s[1..]);
      InsertSortedPermutation(s[0], Sort(s[1..]));
      assert s == [s[0]] + s[1..];
    }
  }

  /** Sorting a sorted list leaves it as it is. */
  lemma SortOfSorted(s: seq<string>)
    requires Sorted(s)
    ensures Sort(s) == s
  {
    SortSortedPermutation(s);
    SortedUnique(Sort(s), s);
  }

  /** The head of a sorted list is at most every element of the list. */
  lemma SortedHeadLeast(a: seq<string>, x: string)
    requires Sorted(a) && x in multiset(a)
    ensures LessEq(a[0], x)
  {
    var i :| 0 <= i < |a| && a[i] == x;
    if i > 0 {
      assert LessEq(a[0], a[i]);
    }
  }

  lemma SortedTail(a: seq<string>)
    requires Sorted(a) && a != []
    ensures Sorted(a[1..])
  {
    forall i, j | 0 <= i < j < |a| - 1 ensures LessEq(a[1..][i], a[1..][j]) {
      assert a[1..][i] == a[i + 1] && a[1..][j] == a[j + 1];
    }
  }

  /** There is only one sorted arrangement of a multiset of strings. */
  lemma {:induction false} SortedUnique(a: seq<string>, b: seq<string>)
    requires Sorted(a) && Sorted(b)
    requires multiset(a) == multiset(b)
    ensures a == b
  {
    if |a| == 0 {
      assert |b| == |multiset(b)| == 0;
    } else {
      SortedSameHead(a, b);
      SameTails(a, b);
      SortedTail(a);
      SortedTail(b);
      SortedUnique(a[1..], b[1..]);
      assert a == [a[0]] + a[1..] && b == [b[0]] + b[1..];
    }
  }

  /** Two sorted arrangements of one multiset start with the same string. */
  lemma SortedSameHead(a: seq<string>, b: seq<string>)
    requires Sorted(a) && Sorted(b) && multiset(a) == multiset(b) && a != []
    ensures b != [] && a[0] == b[0]
  {
    assert |b| == |multiset(b)| == |a|;
    SortedHeadLeast(b, a[0]);
    SortedHeadLeast(a, b[0]);
    LessEqAntisymmetric(a[0], b[0]);
  }

  lemma SameTails<T>(a: seq<T>, b: seq<T>)
    requires multiset(a) == multiset(b) && a != [] && b != [] && a[0] == b[0]
    ensures multiset(a[1..]) == multiset(b[1..])
  {
    assert a == [a[0]] + a[1..] && b == [b[0]] + b[1..];
    assert multiset(a[1..]) == multiset(a) - multiset{a[0]};
    assert multiset(b[1..]) == multiset(b) - multiset{b[0]};
  }

  /** Sorting a list whose elements all precede `x` and then appending `x`
      gives the sort of the list with `x` appended. */
  lemma SortAppendGreatest(l: seq<string>, x: string)
    requires forall y :: y in l ==> Less(y, x)
    ensures Sort(l + [x]) == Sort(l) + [x]
  {
    var r := Sort(l);
    SortSortedPermutation(l);
    SortSortedPermutation(l + [x]);
    forall j | 0 <= j < |r| ensures LessEq(r[j], x) {
      assert r[j] in multiset(l);
    }
    forall i, j | 0 <= i < j < |r + [x]| ensures LessEq((r + [x])[i], (r + [x])[j]) {
      if j == |r| {
        assert (r + [x])[i] == r[i];
      } else {
        assert (r + [x])[i] == r[i] && (r + [x])[j] == r[j];
      }
    }
    SortedUnique(Sort(l + [x]), r + [x]);
  }

  // ---------------------------------------------------------------------
  // Distinct lists (directory listings contain each name once)
  // ---------------------------------------------------------------------

  lemma {:induction false} DistinctCounts<T>(s: seq<T>)
    ensures Distinct(s) <==> forall x :: multiset(s)[x] <= 1
  {
    if s != [] {
      var t := s[1..];
      assert s == [s[0]] + t;
      DistinctCounts(t);
      if Distinct(s) {
        assert Distinct(t) by {
          forall i, j | 0 <= i < j < |t| ensures t[i] != t[j] {
            assert t[i] == s[i + 1] && t[j] == s[j + 1];
          }
        }
        forall k | 0 <= k < |t| ensures t[k] != s[0] {
          assert t[k] == s[k + 1];
        }
        assert s[0] !in t;
      }
      if forall x :: multiset(s)[x] <= 1 {
        assert forall x :: multiset(t)[x] <= multiset(s)[x];
        assert multiset(t)[s[0]] == 0;
        forall i, j | 0 <= i < j < |s| ensures s[i] != s[j] {
          if i == 0 {
            assert s[j] == t[j - 1];
            assert s[j] in multiset(t);
          } else {
            assert s[i] == t[i - 1] && s[j] == t[j - 1];
          }
        }
      }
    }
  }

  lemma DistinctPermutation<T>(a: seq<T>, b: seq<T>)
    requires multiset(a) == multiset(b)
    requires Distinct(a)
    ensures Distinct(b)
  {
    DistinctCounts(a);
    DistinctCounts(b);
  }

  /** The sorted listing of a listing without repeats has no repeats. */
  lemma SortDistinct(s: seq<string>)
    requires Distinct(s)
    ensures Distinct(Sort(s))
  {
    SortSortedPermutation(s);
    DistinctPermutation(s, Sort(s));
  }

  // ---------------------------------------------------------------------
  // Removing names (Ruby's Array#- and rm -rf of release directories)
  // ---------------------------------------------------------------------

  /** The elements of `s` not in `d`, in their order in `s`. */
  function Without<T(==)>(s: seq<T>, d: set<T>): seq<T>
  {
    if s == [] then []
    else if s[0] in d then Without(s[1..], d)
    else [s[0]] + Without(s[1..], d)
  }

  /** The elements of a list, as a set. */
  function Elements<T>(s: seq<T>): set<T>
  {
    set x | x in s
  }

  /** `a - b` on Ruby arrays. */
  function Difference<T(==)>(a: seq<T>, b: seq<T>): seq<T>
  {
    Without(a, Elements(b))
  }

  lemma {:induction false} WithoutMultiset<T>(s: seq<T>, d: set<T>)
    ensures forall x :: multiset(Without(s, d))[x] == if x in d then 0 else multiset(s)[x]
  {
    if s != [] {
      WithoutMultiset(s[1..], d);
      assert s == [s[0]] + s[1..];
    }
  }

  lemma {:induction false} WithoutConcat<T>(a: seq<T>, b: seq<T>, d: set<T>)
    ensures Without(a + b, d) == Without(a, d) + Without(b, d)
  {
    if a == [] {
      assert a + b == b;
    } else {
      assert (a + b)[0] == a[0] && (a + b)[1..] == a[1..] + b;
      WithoutConcat(a[1..], b, d);
    }
  }

  lemma {:induction false} WithoutNone<T>(s: seq<T>, d: set<T>)
    requires forall i :: 0 <= i < |s| ==> s[i] !in d
    ensures Without(s, d) == s
  {
    if s != [] {
      WithoutNone(s[1..], d);
      assert s == [s[0]] + s[1..];
    }
  }

  lemma {:induction false} WithoutAll<T>(s: seq<T>, d: set<T>)
    requires forall i :: 0 <= i < |s| ==> s[i] in d
    ensures Without(s, d) == []
  {
    if s != [] {
      WithoutAll(s[1..], d);
    }
  }

  lemma {:induction false} WithoutSorted(s: seq<string>, d: set<string>)
    requires Sorted(s)
    ensures Sorted(Without(s, d))
  {
    if s != [] {
      var t := Without(s[1..], d);
      WithoutSorted(s[1..], d);
      if s[0] !in d {
        WithoutMultiset(s[1..], d);
        forall j | 0 <= j < |t| ensures LessEq(s[0], t[j]) {
          assert t[j] in multiset(t);
          assert t[j] in multiset(s[1..]);
          var k :| 0 <= k < |s[1..]| && s[1..][k] == t[j];
          assert s[k + 1] == t[j];
        }
        SortedCons(s[0], t);
      }
    }
  }

  lemma WithoutDistinct<T>(s: seq<T>, d: set<T>)
    requires Distinct(s)
    ensures Distinct(Without(s, d))
  {
    WithoutMultiset(s, d);
    DistinctCounts(s);
    DistinctCounts(Without(s, d));
  }

  /** Removing names from a listing and then sorting gives the same list as
      sorting and then removing them. */
  lemma SortWithout(l: seq<string>, d: set<string>)
    ensures Sort(Without(l, d)) == Without(Sort(l), d)
  {
    SortSortedPermutation(l);
    SortSortedPermutation(Without(l, d));
    WithoutSorted(Sort(l), d);
    WithoutMultiset(l, d);
    WithoutMultiset(Sort(l), d);
    assert multiset(Sort(Without(l, d))) == multiset(Without(Sort(l), d));
    SortedUnique(Sort(Without(l, d)), Without(Sort(l), d));
  }

  /** In a list without repeats, removing the names of a prefix leaves the
      rest, and removing the names of a suffix leaves the front. */
  lemma WithoutPrefix<T>(r: seq<T>, k: nat)
    requires Distinct(r) && k <= |r|
    ensures Without(r, Elements(r[..k])) == r[k..]
  {
    var d := Elements(r[..k]);
    assert r == r[..k] + r[k..];
    WithoutConcat(r[..k], r[k..], d);
    WithoutAll(r[..k], d);
    SuffixOutsidePrefix(r, k);
    WithoutNone(r[k..], d);
  }

  /** In a list without repetitions, no element from `k` on occurs before `k`. */
  lemma SuffixOutsidePrefix<T>(r: seq<T>, k: nat)
    requires Distinct(r) && k <= |r|
    ensures forall i :: 0 <= i < |r[k..]| ==> r[k..][i] !in Elements(r[..k])
  {
    forall i | 0 <= i < |r[k..]| ensures r[k..][i] !in Elements(r[..k]) {
      forall j | 0 <= j < k ensures r[..k][j] != r[k..][i] {
        assert r[..k][j] == r[j] && r[k..][i] == r[k + i];
      }
    }
  }

  lemma WithoutSuffix<T>(r: seq<T>, k: nat)
    requires Distinct(r) && k <= |r|
    ensures Without(r, Elements(r[k..])) == r[..k]
  {
    var d := Elements(r[k..]);
    assert r == r[..k] + r[k..];
    WithoutConcat(r[..k], r[k..], d);
    WithoutAll(r[k..], d);
    PrefixOutsideSuffix(r, k);
    WithoutNone(r[..k], d);
  }

  /** In a list without repetitions, no element before `k` occurs from `k` on. */
  lemma PrefixOutsideSuffix<T>(r: seq<T>, k: nat)
    requires Distinct(r) && k <= |r|
    ensures forall i :: 0 <= i < |r[..k]| ==> r[..k][i] !in Elements(r[k..])
  {
    forall i | 0 <= i < |r[..k]| ensures r[..k][i] !in Elements(r[k..]) {
      forall j | 0 <= j < |r| - k ensures r[k..][j] != r[..k][i] {
        assert r[k..][j] == r[k + j] && r[..k][i] == r[i];
      }
    }
  }
}
