/** Python's `sorted` applied to a list of paths: ascending order under
    `str` comparison, which is lexicographic by code point. */
module PathOrder {

  /** Python's `a <= b` on two strings. */
  predicate LexLe(a: string, b: string)
  {
    if a == [] then true
    else if b == [] then false
    else if a[0] != b[0] then a[0] < b[0]
    else LexLe(a[1..], b[1..])
  }

  lemma {:induction false} LexLeReflexive(a: string)
    ensures LexLe(a, a)
    decreases |a|
  {
    if a != [] {
      LexLeReflexive(a[1..]);
    }
  }

  lemma {:induction false} LexLeTotal(a: string, b: string)
    ensures LexLe(a, b) || LexLe(b, a)
    decreases |a|
  {
    if a != [] && b != [] && a[0] == b[0] {
      LexLeTotal(a[1..], b[1..]);
    }
  }

  lemma {:induction false} LexLeAntisymmetric(a: string, b: string)
    requires LexLe(a, b) && LexLe(b, a)
    ensures a == b
    decreases |a|
  {
    if a != [] && b != [] {
      LexLeAntisymmetric(a[1..], b[1..]);
      assert a == [a[0]] + a[1..] && b == [b[0]] + b[1..];
    }
  }

  lemma {:induction false} LexLeTransitive(a: string, b: string, c: string)
    requires LexLe(a, b) && LexLe(b, c)
    ensures LexLe(a, c)
    decreases |a|
  {
    if a != [] && b != [] && c != [] && a[0] == b[0] == c[0] {
      LexLeTransitive(a[1..], b[1..], c[1..]);
    }
  }

  /** Every earlier path is at most every later one. */
  predicate Sorted(s: seq<string>)
  {
    forall i, j :: 0 <= i < j < |s| ==> LexLe(s[i], s[j])
  }

  /** `y` is at most every path of `s`. */
  predicate LowerBound(y: string, s: seq<string>)
  {
    forall j :: 0 <= j < |s| ==> LexLe(y, s[j])
  }

  /** A sorted list is its least path followed by a sorted list. */
  lemma SortedCons(y: string, t: seq<string>)
    ensures Sorted([y] + t) <==> LowerBound(y, t) && Sorted(t)
  {
    var s := [y] + t;
    if LowerBound(y, t) && Sorted(t) {
      forall i, j | 0 <= i < j < |s| ensures LexLe(s[i], s[j]) {
        assert s[j] == t[j - 1];
        if i > 0 { assert s[i] == t[i - 1]; }
      }
    }
    if Sorted(s) {
      forall i, j | 0 <= i < j < |t| ensures LexLe(t[i], t[j]) {
        assert t[i] == s[i + 1] && t[j] == s[j + 1];
      }
      forall j | 0 <= j < |t| ensures LexLe(y, t[j]) {
        assert s[0] == y && t[j] == s[j + 1];
      }
    }
  }

  /** Inserts `x` into a list, after the leading paths below it. */
  function Insert(x: string, s: seq<string>): (r: seq<string>)
    ensures multiset(r) == multiset(s) + multiset{x}
  {
    if s == [] then [x]
    else if LexLe(x, s[0]) then [x] + s
    else
      assert s == [s[0]] + s[1..];
      [s[0]] + Insert(x, s[1..])
  }

  /** A bound below both `x` and the list stays below after the insertion. */
  lemma {:induction false} InsertKeepsBound(y: string, x: string, s: seq<string>)
    requires LexLe(y, x) && LowerBound(y, s)
    ensures LowerBound(y, Insert(x, s))
    decreases |s|
  {
    if s == [] {
      assert Insert(x, s) == [x];
    } else {
      var head := if LexLe(x, s[0]) then x else s[0];
      var tail := if LexLe(x, s[0]) then s else Insert(x, s[1..]);
      assert Insert(x, s) == [head] + tail;
      assert LexLe(y, head) by {
        assert LexLe(y, s[0]);
      }
      if !LexLe(x, s[0]) {
        assert LowerBound(y, s[1..]) by {
          forall j | 0 <= j < |s[1..]| ensures LexLe(y, s[1..][j]) {
            assert s[1..][j] == s[j + 1];
          }
        }
        InsertKeepsBound(y, x, s[1..]);
      }
      forall j | 0 <= j < |[head] + tail| ensures LexLe(y, ([head] + tail)[j]) {
        if j > 0 { assert ([head] + tail)[j] == tail[j - 1]; }
      }
    }
  }

  /** Inserting into a sorted list keeps it sorted. */
  lemma {:induction false} InsertSorted(x: string, s: seq<string>)
    requires Sorted(s)
    ensures Sorted(Insert(x, s))
    decreases |s|
  {
    if s == [] {
    } else {
      assert s == [s[0]] + s[1..];
      SortedCons(s[0], s[1..]);
      if LexLe(x, s[0]) {
        forall j | 0 <= j < |s| ensures LexLe(x, s[j]) {
          if j > 0 { LexLeTransitive(x, s[0], s[j]); }
        }
        SortedCons(x, s);
      } else {
        InsertSorted(x, s[1..]);
        LexLeTotal(x, s[0]);
        InsertKeepsBound(s[0], x, s[1..]);
        SortedCons(s[0], Insert(x, s[1..]));
      }
    }
  }

  /** `sorted(paths)` on a list of strings, as an insertion sort. */
  function SortPaths(paths: seq<string>): (r: seq<string>)
    ensures Sorted(r)
    ensures multiset(r) == multiset(paths)
  {
    if paths == [] then []
    else
      var rest := SortPaths(paths[1..]);
      InsertSorted(paths[0], rest);
      assert paths == [paths[0]] + paths[1..];
      Insert(paths[0], rest)
  }

  /** The head of a sorted list is at most each of its paths. */
  lemma HeadIsLeast(s: seq<string>, x: string)
    requires Sorted(s) && x in s
    ensures LexLe(s[0], x)
  {
    var k :| 0 <= k < |s| && s[k] == x;
    if k == 0 { LexLeReflexive(x); }
  }

  /** Dropping the head removes one copy of it. */
  lemma TailMultiset(s: seq<string>)
    requires s != []
    ensures multiset(s[1..]) == multiset(s) - multiset{s[0]}
  {
    assert s == [s[0]] + s[1..];
  }

  /** Two sorted lists holding the same paths are the same list: whatever
      algorithm sorts, the order `sorted` gives is the one SortPaths gives. */
  lemma {:induction false} SortedUnique(a: seq<string>, b: seq<string>)
    requires Sorted(a) && Sorted(b)
    requires multiset(a) == multiset(b)
    ensures a == b
    decreases |a|
  {
    if a == [] {
      assert |multiset(b)| == 0;
    } else {
      assert a[0] in multiset(b);
      assert b != [];
      HeadIsLeast(b, a[0]);
      assert b[0] in multiset(a);
      HeadIsLeast(a, b[0]);
      LexLeAntisymmetric(a[0], b[0]);
      TailMultiset(a);
      TailMultiset(b);
      SortedCons(a[0], a[1..]);
      SortedCons(b[0], b[1..]);
      assert a == [a[0]] + a[1..] && b == [b[0]] + b[1..];
      SortedUnique(a[1..], b[1..]);
    }
  }

  /** The result of `sorted` is determined by the list's contents alone. */
  lemma SortPathsIgnoresInputOrder(p: seq<string>, q: seq<string>)
    requires multiset(p) == multiset(q)
    ensures SortPaths(p) == SortPaths(q)
  {
    SortedUnique(SortPaths(p), SortPaths(q));
  }
}
