/** Python's ordering of `str` values (code point by code point, a proper
    prefix first) and `sorted()` on a list of strings. */
module StringOrder {

  /** `a <= b` for Python strings. */
  predicate LexLe(a: string, b: string)
    decreases |a|
  {
    if a == [] then true
    else if b == [] then false
    else if a[0] != b[0] then a[0] < b[0]
    else LexLe(a[1..], b[1..])
  }

  lemma {:induction false} LexLeReflexive(a: string)
    ensures LexLe(a, a)
    decreases |a|
  {
    if a != [] { LexLeReflexive(a[1..]); }
  }

  lemma {:induction false} LexLeTotal(a: string, b: string)
    ensures LexLe(a, b) || LexLe(b, a)
    decreases |a|
  {
    if a != [] && b != [] && a[0] == b[0] {
      LexLeTotal(a[1..], b[1..]);
    }
  }

  lemma {:induction false} LexLeAntisymmetric(a: string, b: string)
    requires LexLe(a, b) && LexLe(b, a)
    ensures a == b
    decreases |a|
  {
    if a != [] {
      LexLeAntisymmetric(a[1..], b[1..]);
      assert a == [a[0]] + a[1..] && b == [b[0]] + b[1..];
    }
  }

  lemma {:induction false} LexLeTransitive(a: string, b: string, c: string)
    requires LexLe(a, b) && LexLe(b, c)
    ensures LexLe(a, c)
    decreases |a|
  {
    if a != [] && b != [] && c != [] && a[0] == b[0] && b[0] == c[0] {
      LexLeTransitive(a[1..], b[1..], c[1..]);
    }
  }

  /** Ascending order: every earlier element is `<=` every later one. */
  predicate IsSorted(s: seq<string>) {
    forall i, j :: 0 <= i < j < |s| ==> LexLe(s[i], s[j])
  }

  /** `x` is `<=` every element of `s`. */
  predicate LowerBound(x: string, s: seq<string>) {
    forall j :: 0 <= j < |s| ==> LexLe(x, s[j])
  }

  /** A lower bound of an ascending sequence can be put in front of it. */
  lemma ConsSorted(x: string, s: seq<string>)
    requires IsSorted(s) && LowerBound(x, s)
    ensures IsSorted([x] + s)
  {
    forall i, j | 0 <= i < j < |s| + 1 ensures LexLe(([x] + s)[i], ([x] + s)[j]) {
      if i > 0 { assert ([x] + s)[i] == s[i - 1]; }
      assert ([x] + s)[j] == s[j - 1];
    }
  }

  /** A lower bound stays one under rearrangement. */
  lemma LowerBoundPermutation(x: string, s: seq<string>, t: seq<string>)
    requires LowerBound(x, s) && multiset(t) == multiset(s)
    ensures LowerBound(x, t)
  {
    forall k | 0 <= k < |t| ensures LexLe(x, t[k]) {
      assert t[k] in multiset(s);
      var j :| 0 <= j < |s| && s[j] == t[k];
    }
  }

  /** Places `x` before the first element of sorted `s` that is not below it. */
  function Insert(x: string, s: seq<string>): (r: seq<string>)
    requires IsSorted(s)
    ensures IsSorted(r)
    ensures multiset(r) == multiset(s) + multiset{x}
    decreases |s|
  {
    if s == [] || LexLe(x, s[0]) then
      assert LowerBound(x, s) by {
        forall j | 0 <= j < |s| ensures LexLe(x, s[j]) {
          if j > 0 { LexLeTransitive(x, s[0], s[j]); }
        }
      }
      ConsSorted(x, s);
      [x] + s
    else
      var tail := s[1..];
      var t := Insert(x, tail);
      assert s == [s[0]] + tail;
      assert LowerBound(s[0], tail + [x]) by {
        LexLeTotal(x, s[0]);
        forall j | 0 <= j < |tail| + 1 ensures LexLe(s[0], (tail + [x])[j]) {
          if j < |tail| { assert (tail + [x])[j] == s[j + 1]; }
        }
      }
      LowerBoundPermutation(s[0], tail + [x], t);
      ConsSorted(s[0], t);
      [s[0]] + t
  }

  /** `sorted(s)`: an ascending permutation of `s` (computed by insertion; by
      SortedPermutationUnique any other sorting algorithm agrees with it). */
  function SortStrings(s: seq<string>): (r: seq<string>)
    ensures IsSorted(r)
    ensures multiset(r) == multiset(s)
    ensures |r| == |s|
    decreases |s|
  {
    if s == [] then []
    else
      assert s == [s[0]] + s[1..];
      var r := Insert(s[0], SortStrings(s[1..]));
      assert |r| == |multiset(r)|;
      r
  }

  /** The first element of an ascending sequence is below all of its elements. */
  lemma SortedHeadIsLeast(s: seq<string>, x: string)
    requires IsSorted(s) && x in s
    ensures LexLe(s[0], x)
  {
    var i :| 0 <= i < |s| && s[i] == x;
    if i == 0 { LexLeReflexive(x); }
  }

  /** Dropping the first element keeps a sequence ascending. */
  lemma SortedTail(s: seq<string>)
    requires s != [] && IsSorted(s)
    ensures IsSorted(s[1..])
  {
    forall i, j | 0 <= i < j < |s| - 1 ensures LexLe(s[1..][i], s[1..][j]) {
      assert s[1..][i] == s[i + 1] && s[1..][j] == s[j + 1];
    }
  }

  /** The multiset of a tail is that of the whole minus the first element. */
  lemma MultisetDropHead(s: seq<string>)
    requires s != []
    ensures multiset(s[1..]) == multiset(s) - multiset{s[0]}
  {
    assert s == [s[0]] + s[1..];
  }

  /** Equal multisets with equal first elements have equal tails. */
  lemma MultisetTail(a: seq<string>, b: seq<string>)
    requires a != [] && b != [] && a[0] == b[0]
    requires multiset(a) == multiset(b)
    ensures multiset(a[1..]) == multiset(b[1..])
  {
    MultisetDropHead(a);
    MultisetDropHead(b);
  }

  /** Two ascending arrangements of the same multiset of strings are equal, so
      the sorted list is determined by its contents alone. */
  lemma {:induction false} SortedPermutationUnique(a: seq<string>, b: seq<string>)
    requires IsSorted(a) && IsSorted(b)
    requires multiset(a) == multiset(b)
    ensures a == b
    decreases |a|
  {
    if a != [] {
      assert |b| == |a| && b != [] by {
        assert |b| == |multiset(b)| == |multiset(a)| == |a|;
      }
      assert a[0] == b[0] by {
        assert a[0] in multiset(b) && b[0] in multiset(a);
        SortedHeadIsLeast(b, a[0]);
        SortedHeadIsLeast(a, b[0]);
        LexLeAntisymmetric(a[0], b[0]);
      }
      assert a[1..] == b[1..] by {
        MultisetTail(a, b);
        SortedTail(a);
        SortedTail(b);
        SortedPermutationUnique(a[1..], b[1..]);
      }
      assert a == [a[0]] + a[1..] && b == [b[0]] + b[1..];
    }
  }
}
