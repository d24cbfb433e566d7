/** Text order as SQLite's BINARY collation and Python compare strings, and the
    stable sort that the modelled code applies to keys, rows and games. */
module Sorting {
  /** `a < b` by code point, a proper prefix coming first. */
  predicate LexLess(a: string, b: string)
  {
    if |b| == 0 then false
    else if |a| == 0 then true
    else if a[0] != b[0] then a[0] < b[0]
    else LexLess(a[1..], b[1..])
  }

  lemma {:induction false} LexIrreflexive(a: string)
    ensures !LexLess(a, a)
  {
    if |a| == 0 {
    } else {
      LexIrreflexive(a[1..]);
    }
  }

  lemma {:induction false} LexTransitive(a: string, b: string, c: string)
    requires LexLess(a, b) && LexLess(b, c)
    ensures LexLess(a, c)
  {
    if |a| == 0 || a[0] != b[0] || b[0] != c[0] {
    } else {
      LexTransitive(a[1..], b[1..], c[1..]);
    }
  }

  lemma {:induction false} LexTotal(a: string, b: string)
    ensures a == b || LexLess(a, b) || LexLess(b, a)
  {
    if |a| == 0 || |b| == 0 || a[0] != b[0] {
    } else {
      LexTotal(a[1..], b[1..]);
      assert a == [a[0]] + a[1..] && b == [b[0]] + b[1..];
    }
  }

  predicate IntLess(a: int, b: int) { a < b }

  ghost predicate StrictOrder<T(!new)>(less: (T, T) -> bool)
  {
    && (forall x :: !less(x, x))
    && (forall x, y, z :: less(x, y) && less(y, z) ==> less(x, z))
  }

  lemma LexIsStrictOrder()
    ensures StrictOrder(LexLess)
  {
    forall x: string ensures !LexLess(x, x) { LexIrreflexive(x); }
    forall x: string, y: string, z: string | LexLess(x, y) && LexLess(y, z) ensures LexLess(x, z) {
      LexTransitive(x, y, z);
    }
  }

  ghost predicate StrictlySorted<T>(less: (T, T) -> bool, s: seq<T>)
  {
    forall i, j :: 0 <= i < j < |s| ==> less(s[i], s[j])
  }

  /** No two positions tie, so the sorted order is forced. */
  ghost predicate PairwiseComparable<T>(less: (T, T) -> bool, s: seq<T>)
  {
    forall i, j :: 0 <= i < j < |s| ==> less(s[i], s[j]) || less(s[j], s[i])
  }

  function Insert<T>(less: (T, T) -> bool, x: T, s: seq<T>): (r: seq<T>)
  {
    if |s| == 0 then [x]
    else if less(s[0], x) then [s[0]] + Insert(less, x, s[1..])
    else [x] + s
  }

  /** Stable insertion sort: an element stays before the later ones it ties with. */
  function Sort<T>(less: (T, T) -> bool, s: seq<T>): (r: seq<T>)
  {
    if |s| == 0 then [] else Insert(less, s[0], Sort(less, s[1..]))
  }

  lemma {:induction false} InsertPermutes<T>(less: (T, T) -> bool, x: T, s: seq<T>)
    ensures multiset(Insert(less, x, s)) == multiset{x} + multiset(s)
    ensures |Insert(less, x, s)| == |s| + 1
  {
    if |s| == 0 {
    } else {
      assert s == [s[0]] + s[1..];
      if less(s[0], x) { InsertPermutes(less, x, s[1..]); }
    }
  }

  lemma {:induction false} SortPermutes<T>(less: (T, T) -> bool, s: seq<T>)
    ensures multiset(Sort(less, s)) == multiset(s)
    ensures |Sort(less, s)| == |s|
    ensures forall x :: x in Sort(less, s) <==> x in s
  {
    if |s| == 0 {
    } else {
      SortPermutes(less, s[1..]);
      InsertPermutes(less, s[0], Sort(less, s[1..]));
      assert s == [s[0]] + s[1..];
    }
    assert forall x :: x in Sort(less, s) <==> x in multiset(Sort(less, s));
  }

  lemma ConsSorted<T>(less: (T, T) -> bool, x: T, s: seq<T>)
    requires StrictlySorted(less, s) && forall k :: 0 <= k < |s| ==> less(x, s[k])
    ensures StrictlySorted(less, [x] + s)
  {
    var r := [x] + s;
    forall i, j | 0 <= i < j < |r| ensures less(r[i], r[j]) {
      assert r[j] == s[j - 1] && (i > 0 ==> r[i] == s[i - 1]);
    }
  }

  lemma {:induction false} InsertSorted<T(!new)>(less: (T, T) -> bool, x: T, s: seq<T>)
    requires StrictOrder(less) && StrictlySorted(less, s)
    requires forall y :: y in s ==> less(x, y) || less(y, x)
    ensures StrictlySorted(less, Insert(less, x, s))
  {
    if |s| == 0 {
    } else if less(s[0], x) {
      var t := Insert(less, x, s[1..]);
      InsertSorted(less, x, s[1..]);
      InsertPermutes(less, x, s[1..]);
      forall k | 0 <= k < |t| ensures less(s[0], t[k]) {
        assert t[k] in multiset(t);
      }
      ConsSorted(less, s[0], t);
    } else {
      assert less(x, s[0]);
      ConsSorted(less, x, s);
    }
  }

  lemma {:induction false} SortSorts<T(!new)>(less: (T, T) -> bool, s: seq<T>)
    requires StrictOrder(less) && PairwiseComparable(less, s)
    ensures StrictlySorted(less, Sort(less, s))
  {
    if |s| == 0 {
    } else {
      SortSorts(less, s[1..]);
      SortPermutes(less, s[1..]);
      InsertSorted(less, s[0], Sort(less, s[1..]));
    }
  }

  /** A strictly sorted sequence is determined by its elements. */
  lemma {:induction false} SortedUnique<T(!new)>(less: (T, T) -> bool, a: seq<T>, b: seq<T>)
    requires StrictOrder(less) && StrictlySorted(less, a) && StrictlySorted(less, b)
    requires forall x :: x in a <==> x in b
    ensures a == b
  {
    assert |b| > 0 ==> b[0] in a;
    if |a| == 0 {
    } else {
      assert a[0] in b && |b| > 0;
      assert b[0] in a;
      assert a[0] == b[0];
      forall x ensures x in a[1..] <==> x in b[1..] {
        assert x in a[1..] ==> x in a && x != a[0];
        assert x in b[1..] ==> x in b && x != b[0];
      }
      SortedUnique(less, a[1..], b[1..]);
      assert a == [a[0]] + a[1..] && b == [b[0]] + b[1..];
    }
  }

  /** Sorting forgets the order of its input whenever no two elements tie. */
  lemma SortIgnoresOrder<T(!new)>(less: (T, T) -> bool, a: seq<T>, b: seq<T>)
    requires StrictOrder(less) && PairwiseComparable(less, a)
    requires PairwiseComparable(less, b)
    requires forall x :: x in a <==> x in b
    ensures Sort(less, a) == Sort(less, b)
  {
    SortSorts(less, a);
    SortSorts(less, b);
    SortPermutes(less, a);
    SortPermutes(less, b);
    SortedUnique(less, Sort(less, a), Sort(less, b));
  }

  /** Distinct elements of `s`, first occurrences kept. */
  function Distinct<T(==,!new)>(s: seq<T>): (r: seq<T>)
    ensures forall x :: x in r <==> x in s
    ensures forall i, j :: 0 <= i < j < |r| ==> r[i] != r[j]
  {
    if |s| == 0 then []
    else
      var rest := Distinct(s[1..]);
      if s[0] in rest then rest else [s[0]] + rest
  }

  /** `sorted(set(s))` for a list of strings. */
  function SortedSet(s: seq<string>): (r: seq<string>)
    ensures forall x :: x in r <==> x in s
    ensures StrictlySorted(LexLess, r)
  {
    var d := Distinct(s);
    SortPermutes(LexLess, d);
    LexIsStrictOrder();
    assert PairwiseComparable(LexLess, d) by {
      forall i, j | 0 <= i < j < |d| ensures LexLess(d[i], d[j]) || LexLess(d[j], d[i]) { LexTotal(d[i], d[j]); }
    }
    SortSorts(LexLess, d);
    Sort(LexLess, d)
  }
}
