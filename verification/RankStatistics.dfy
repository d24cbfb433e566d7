/** Tie-averaged ranks and Spearman's rho, over exact reals. */
module RankStatistics {
  import opened Sorting

  predicate RealLess(a: real, b: real) { a < b }

  function CountLess(v: seq<real>, x: real): nat
  {
    if |v| == 0 then 0 else (if v[0] < x then 1 else 0) + CountLess(v[1..], x)
  }

  function CountEqual(v: seq<real>, x: real): nat
  {
    if |v| == 0 then 0 else (if v[0] == x then 1 else 0) + CountEqual(v[1..], x)
  }

  /** `np.unique`: the distinct values in increasing order. */
  function Unique(v: seq<real>): (u: seq<real>)
    ensures StrictlySorted(RealLess, u) && forall x :: x in u <==> x in v
  {
    var d := Distinct(v);
    SortPermutes(RealLess, d);
    assert PairwiseComparable(RealLess, d);
    SortSorts(RealLess, d);
    Sort(RealLess, d)
  }

  function IndexOf(u: seq<real>, x: real): (k: nat)
    requires x in u
    ensures k < |u| && u[k] == x
  {
    if u[0] == x then 0 else 1 + IndexOf(u[1..], x)
  }

  /** `np.cumsum` of the counts of the distinct values. */
  function CumulativeCount(v: seq<real>, u: seq<real>, k: nat): nat
    requires k < |u|
  {
    CountEqual(v, u[k]) + if k == 0 then 0 else CumulativeCount(v, u, k - 1)
  }

  /** `_average_ranks`, at position `i`. */
  function AverageRank(v: seq<real>, i: nat): real
    requires i < |v|
  {
    var u := Unique(v);
    var k := IndexOf(u, v[i]);
    CumulativeCount(v, u, k) as real - (CountEqual(v, u[k]) as real - 1.0) / 2.0
  }

  lemma {:induction false} SplitAt(v: seq<real>, u: seq<real>, k: nat)
    requires StrictlySorted(RealLess, u) && k < |u| && forall i :: 0 <= i < |v| ==> v[i] in u
    ensures CountLess(v, u[k]) == if k == 0 then 0 else CountLess(v, u[k - 1]) + CountEqual(v, u[k - 1])
    decreases |v|
  {
    if |v| == 0 {
    } else {
      SplitAt(v[1..], u, k);
      var j :| 0 <= j < |u| && u[j] == v[0];
      assert j < k ==> u[j] < u[k];
      assert k > 0 && j < k - 1 ==> u[j] < u[k - 1];
      assert j > k ==> u[k] < u[j];
      assert k > 0 && j >= k ==> u[k - 1] < u[j];
    }
  }

  lemma {:induction false} CumulativeIsBelow(v: seq<real>, u: seq<real>, k: nat)
    requires StrictlySorted(RealLess, u) && k < |u| && forall i :: 0 <= i < |v| ==> v[i] in u
    ensures CumulativeCount(v, u, k) == CountLess(v, u[k]) + CountEqual(v, u[k])
  {
    SplitAt(v, u, k);
    if k == 0 {
    } else {
      CumulativeIsBelow(v, u, k - 1);
    }
  }

  /** Each rank is the number of smaller values plus the middle of the tie. */
  lemma RankFormula(v: seq<real>, i: nat)
    requires i < |v|
    ensures AverageRank(v, i) == CountLess(v, v[i]) as real + (CountEqual(v, v[i]) as real + 1.0) / 2.0
  {
    hide Unique, CountLess, CountEqual;
    var u := Unique(v);
    CumulativeIsBelow(v, u, IndexOf(u, v[i]));
  }

  // ----- the ranks add up

  function Sum(s: seq<real>): real { if |s| == 0 then 0.0 else s[0] + Sum(s[1..]) }

  function Ranks(v: seq<real>): (r: seq<real>)
    ensures |r| == |v| && forall i :: 0 <= i < |v| ==> r[i] == AverageRank(v, i)
  {
    seq(|v|, i requires 0 <= i < |v| => AverageRank(v, i))
  }

  /** How `y` scores against `x`: 2 when beaten, 1 when tied. */
  function Against(x: real, y: real): nat { if x < y then 2 else if x == y then 1 else 0 }

  function Score(v: seq<real>, y: real): nat { 2 * CountLess(v, y) + CountEqual(v, y) }

  function ScoreSum(v: seq<real>, ys: seq<real>): nat
  {
    if |ys| == 0 then 0 else Score(v, ys[0]) + ScoreSum(v, ys[1..])
  }

  function AgainstAll(x: real, ys: seq<real>): nat
  {
    if |ys| == 0 then 0 else Against(x, ys[0]) + AgainstAll(x, ys[1..])
  }

  lemma {:induction false} ScoreSumSplits(x: real, w: seq<real>, ys: seq<real>)
    ensures ScoreSum([x] + w, ys) == ScoreSum(w, ys) + AgainstAll(x, ys)
  {
    if |ys| == 0 {
    } else {
      ScoreSumSplits(x, w, ys[1..]);
      assert ([x] + w)[1..] == w;
    }
  }

  lemma {:induction false} MutualScore(x: real, ys: seq<real>)
    ensures Score(ys, x) + AgainstAll(x, ys) == 2 * |ys|
  {
    if |ys| == 0 {
    } else {
      MutualScore(x, ys[1..]);
    }
  }

  lemma SquareNext(n: nat)
    ensures (n + 1) * (n + 1) == n * n + 2 * n + 1
  {
  }

  lemma {:induction false} ScoresSumToSquare(v: seq<real>)
    ensures ScoreSum(v, v) == |v| * |v|
  {
    if |v| == 0 {
    } else {
      var x, w := v[0], v[1..];
      assert v == [x] + w;
      ScoresSumToSquare(w);
      ScoreSumSplits(x, w, v);
      MutualScore(x, w);
      assert ScoreSum(w, v) == Score(w, x) + ScoreSum(w, w);
      assert AgainstAll(x, v) == 1 + AgainstAll(x, w);
      SquareNext(|w|);
    }
  }

  lemma {:induction false} RankSumScores(v: seq<real>, ys: seq<real>, rs: seq<real>)
    requires |rs| == |ys| && forall i :: 0 <= i < |ys| ==> rs[i] == Score(v, ys[i]) as real / 2.0 + 0.5
    ensures Sum(rs) == ScoreSum(v, ys) as real / 2.0 + |ys| as real / 2.0
  {
    if |ys| == 0 {
    } else {
      RankSumScores(v, ys[1..], rs[1..]);
    }
  }

  /** However the values tie, the ranks sum to n(n + 1) / 2. */
  lemma RanksSum(v: seq<real>)
    ensures Sum(Ranks(v)) == (|v| * (|v| + 1)) as real / 2.0
  {
    hide AverageRank, CountLess, CountEqual, Sum, ScoreSum;
    forall i | 0 <= i < |v| ensures Ranks(v)[i] == Score(v, v[i]) as real / 2.0 + 0.5 { RankFormula(v, i); }
    RankSumScores(v, v, Ranks(v));
    ScoresSumToSquare(v);
    assert |v| * (|v| + 1) == |v| * |v| + |v|;
  }

  // ----- only the order of the values matters

  /** `w` is `v` under a strictly increasing transform. */
  predicate SameOrder(v: seq<real>, w: seq<real>)
  {
    |v| == |w| && forall i, j :: 0 <= i < |v| && 0 <= j < |v| ==> (v[i] < v[j] <==> w[i] < w[j])
  }

  lemma {:induction false} CountsKept(v: seq<real>, w: seq<real>, x: real, y: real)
    requires |v| == |w|
    requires forall i :: 0 <= i < |v| ==> (v[i] < x <==> w[i] < y) && (v[i] == x <==> w[i] == y)
    ensures CountLess(v, x) == CountLess(w, y) && CountEqual(v, x) == CountEqual(w, y)
  {
    if |v| == 0 {
    } else {
      CountsKept(v[1..], w[1..], x, y);
    }
  }

  lemma RanksIgnoreScale(v: seq<real>, w: seq<real>)
    requires SameOrder(v, w)
    ensures Ranks(v) == Ranks(w)
  {
    hide AverageRank, CountLess, CountEqual;
    forall i | 0 <= i < |v| ensures Ranks(v)[i] == Ranks(w)[i] {
      RankFormula(v, i);
      RankFormula(w, i);
      CountsKept(v, w, v[i], w[i]);
    }
  }

  // ----- Spearman's rho

  function Times(x: real, y: real): real { x * y }

  function Dot(a: seq<real>, b: seq<real>): real
    requires |a| == |b|
  {
    if |a| == 0 then 0.0 else Times(a[0], b[0]) + Dot(a[1..], b[1..])
  }

  lemma Positive(x: real, y: real)
    requires x > 0.0 && y > 0.0
    ensures Times(x, y) > 0.0
  {
  }

  lemma TimesSelf(x: real)
    ensures Times(-x, -x) == Times(x, x) && Times(0.0, 0.0) == 0.0
  {
  }

  lemma SquareSign(x: real)
    ensures Times(x, x) >= 0.0
    ensures x != 0.0 ==> Times(x, x) > 0.0
    ensures x == 0.0 ==> Times(x, x) == 0.0
  {
    TimesSelf(x);
    hide Times;
    if x > 0.0 {
      Positive(x, x);
    } else if x < 0.0 {
      Positive(-x, -x);
    }
  }

  lemma {:induction false} SquaresNonNegative(a: seq<real>)
    ensures Dot(a, a) >= 0.0
    ensures Dot(a, a) == 0.0 <==> forall i :: 0 <= i < |a| ==> a[i] == 0.0
  {
    hide Times;
    if |a| == 0 {
    } else {
      SquaresNonNegative(a[1..]);
      SquareSign(a[0]);
      assert forall i :: 1 <= i < |a| ==> a[i] == a[1..][i - 1];
    }
  }

  lemma SquaresIncrease(x: real, y: real)
    requires 0.0 <= x < y
    ensures Times(x, x) < Times(y, y)
  {
    Positive(y - x, y + x);
    assert (y - x) * (y + x) == y * y - x * x;
  }

  lemma Root(x: real, y: real)
    requires x >= 0.0 && Times(y, y) <= Times(x, x)
    ensures -x <= y <= x
  {
    TimesSelf(y);
    hide Times;
    if y > x {
      SquaresIncrease(x, y);
    } else if -y > x {
      SquaresIncrease(x, -y);
    }
  }

  lemma TimesMono(x: real, y: real, z: real)
    requires x <= y && z >= 0.0
    ensures Times(x, z) <= Times(y, z)
    ensures x >= 0.0 ==> Times(x, z) >= 0.0
  {
  }

  lemma SquareOfSum(u: real, v: real, w: real)
    ensures Times(u + v, u + v) == Times(u - v, u - v) + 4.0 * Times(u, v)
    ensures Times(2.0 * w, 2.0 * w) == 4.0 * Times(w, w)
  {
  }

  lemma MeansOrdered(u: real, v: real, w: real)
    requires u >= 0.0 && v >= 0.0 && Times(w, w) <= Times(u, v)
    ensures 2.0 * w <= u + v
  {
    hide Times;
    SquareSign(u - v);
    SquareOfSum(u, v, w);
    Root(u + v, 2.0 * w);
  }

  lemma SquareOfProduct(p: real, c: real)
    ensures Times(Times(p, c), Times(p, c)) == Times(Times(p, p), Times(c, c))
  {
    assert (p * c) * (p * c) == (p * p) * (c * c);
  }

  lemma CrossProduct(aa: real, bb: real, s: real, t: real)
    ensures Times(Times(aa, t), Times(bb, s)) == Times(Times(aa, bb), Times(s, t))
  {
    assert (aa * t) * (bb * s) == aa * (t * (bb * s));
    assert t * (bb * s) == bb * (s * t);
    assert aa * (bb * (s * t)) == (aa * bb) * (s * t);
  }

  lemma Expand(c: real, p: real, s: real, t: real, aa: real, bb: real)
    ensures Times(c + p, c + p) == Times(c, c) + 2.0 * Times(p, c) + Times(p, p)
    ensures Times(s + aa, t + bb) == Times(s, t) + (Times(aa, t) + Times(bb, s)) + Times(aa, bb)
  {
  }

  /** The inductive step of Cauchy-Schwarz. */
  lemma CauchyStep(p: real, aa: real, bb: real, a: real, b: real)
    requires aa >= 0.0 && bb >= 0.0 && Times(p, p) <= Times(aa, bb)
    ensures Times(Times(a, b) + p, Times(a, b) + p) <= Times(Times(a, a) + aa, Times(b, b) + bb)
  {
    hide Times;
    var s, t, c := Times(a, a), Times(b, b), Times(a, b);
    SquareSign(a);
    SquareSign(b);
    SquareOfProduct(a, b);
    TimesMono(aa, aa, t);
    TimesMono(bb, bb, s);
    TimesMono(s, s, t);
    TimesMono(Times(p, p), Times(aa, bb), Times(s, t));
    SquareOfProduct(p, c);
    CrossProduct(aa, bb, s, t);
    MeansOrdered(Times(aa, t), Times(bb, s), Times(p, c));
    Expand(c, p, s, t, aa, bb);
  }

  lemma {:induction false} CauchySchwarz(a: seq<real>, b: seq<real>)
    requires |a| == |b|
    ensures Times(Dot(a, b), Dot(a, b)) <= Times(Dot(a, a), Dot(b, b))
  {
    hide Times;
    if |a| == 0 {
    } else {
      CauchySchwarz(a[1..], b[1..]);
      SquaresNonNegative(a[1..]);
      SquaresNonNegative(b[1..]);
      CauchyStep(Dot(a[1..], b[1..]), Dot(a[1..], a[1..]), Dot(b[1..], b[1..]), a[0], b[0]);
    }
  }

  function Centered(s: seq<real>): (r: seq<real>)
    ensures |r| == |s| && forall i :: 0 <= i < |s| ==> r[i] == s[i] - Sum(s) / |s| as real
  {
    seq(|s|, i requires 0 <= i < |s| => s[i] - Sum(s) / |s| as real)
  }

  /** The square of the denominator. */
  function Spread(x: seq<real>, y: seq<real>): real
  {
    Times(Dot(Centered(Ranks(x)), Centered(Ranks(x))), Dot(Centered(Ranks(y)), Centered(Ranks(y))))
  }

  /** `spearman`, given the root of its denominator's square. */
  function Spearman(x: seq<real>, y: seq<real>, root: real): real
    requires |x| == |y|
  {
    if root == 0.0 then 0.0 else Dot(Centered(Ranks(x)), Centered(Ranks(y))) / root
  }

  predicate Constant(v: seq<real>) { forall i :: 0 <= i < |v| ==> v[i] == v[0] }

  lemma {:induction false} RankIncreases(v: seq<real>, x: real, y: real)
    requires x < y
    ensures CountLess(v, x) + CountEqual(v, x) <= CountLess(v, y)
  {
    if |v| == 0 {
    } else {
      RankIncreases(v[1..], x, y);
    }
  }

  lemma {:induction false} CountsOwn(v: seq<real>, i: nat)
    requires i < |v|
    ensures CountEqual(v, v[i]) >= 1
  {
    if i == 0 {
    } else {
      CountsOwn(v[1..], i - 1);
    }
  }

  lemma RanksOfConstant(v: seq<real>)
    requires |v| > 0
    ensures Constant(Ranks(v)) <==> Constant(v)
  {
    hide AverageRank;
    if Constant(v) {
      forall i | 0 <= i < |v| ensures Ranks(v)[i] == Ranks(v)[0] { RankFormula(v, i); RankFormula(v, 0); }
    }
    if i: nat :| i < |v| && v[i] != v[0] {
      var lo, hi := if v[i] < v[0] then i else 0, if v[i] < v[0] then 0 else i;
      RankFormula(v, lo);
      RankFormula(v, hi);
      RankIncreases(v, v[lo], v[hi]);
      CountsOwn(v, hi);
    }
  }

  lemma {:induction false} ConstantSum(s: seq<real>, c: real)
    requires forall i :: 0 <= i < |s| ==> s[i] == c
    ensures Sum(s) == |s| as real * c
  {
    if |s| == 0 {
    } else {
      ConstantSum(s[1..], c);
      assert (|s| as real) * c == ((|s| - 1) as real) * c + c;
    }
  }

  lemma MeanOf(n: real, x: real, total: real)
    requires n > 0.0 && total == n * x
    ensures total / n == x
  {
  }

  lemma SpreadOfConstant(v: seq<real>)
    requires |v| > 0
    ensures Dot(Centered(Ranks(v)), Centered(Ranks(v))) == 0.0 <==> Constant(v)
  {
    hide AverageRank, Ranks;
    var r := Ranks(v);
    var c := Centered(r);
    RanksOfConstant(v);
    SquaresNonNegative(c);
    if Constant(r) {
      ConstantSum(r, r[0]);
      MeanOf(|r| as real, r[0], Sum(r));
    }
    if forall i :: 0 <= i < |c| ==> c[i] == 0.0 {
      assert forall i :: 0 <= i < |r| ==> r[i] == c[i] + Sum(r) / |r| as real;
    }
  }

  lemma Quotient(n: real, d: real)
    requires d > 0.0 && -d <= n <= d
    ensures -1.0 <= n / d <= 1.0
  {
    assert (n / d) * d == n;
  }

  lemma ZeroProduct(x: real, y: real)
    requires x >= 0.0 && y >= 0.0
    ensures Times(x, y) == 0.0 <==> x == 0.0 || y == 0.0
  {
    if x > 0.0 && y > 0.0 { Positive(x, y); }
  }

  lemma RootBounds(root: real, n: real, aa: real, bb: real)
    requires root >= 0.0 && aa >= 0.0 && bb >= 0.0
    requires Times(root, root) == Times(aa, bb) && Times(n, n) <= Times(aa, bb)
    ensures -root <= n <= root
    ensures root == 0.0 <==> aa == 0.0 || bb == 0.0
  {
    Root(root, n);
    hide Times;
    SquareSign(root);
    ZeroProduct(aa, bb);
  }

  /** Rho lies in [-1, 1], and the denominator is zero exactly when a side is constant. */
  lemma SpearmanBounds(x: seq<real>, y: seq<real>, root: real)
    requires |x| == |y| && |x| > 0 && root >= 0.0 && Times(root, root) == Spread(x, y)
    ensures -1.0 <= Spearman(x, y, root) <= 1.0
    ensures root == 0.0 <==> Constant(x) || Constant(y)
  {
    hide Ranks, Centered, Dot, Constant, Times;
    var a, b := Centered(Ranks(x)), Centered(Ranks(y));
    CauchySchwarz(a, b);
    SquaresNonNegative(a);
    SquaresNonNegative(b);
    RootBounds(root, Dot(a, b), Dot(a, a), Dot(b, b));
    if root > 0.0 { Quotient(Dot(a, b), root); }
    SpreadOfConstant(x);
    SpreadOfConstant(y);
  }

  /** Rho sees nothing of the values but their order. */
  lemma SpearmanIgnoresScale(x: seq<real>, x': seq<real>, y: seq<real>, y': seq<real>, root: real)
    requires |x| == |y| && SameOrder(x, x') && SameOrder(y, y')
    ensures Spread(x, y) == Spread(x', y') && Spearman(x, y, root) == Spearman(x', y', root)
  {
    hide Dot, Centered, Ranks;
    RanksIgnoreScale(x, x');
    RanksIgnoreScale(y, y');
  }

  // ----- what rho says of agreement

  /** Rho of values with themselves is 1, unless they are constant. */
  lemma SpearmanSelf(x: seq<real>, root: real)
    requires |x| > 0 && root >= 0.0 && Times(root, root) == Spread(x, x)
    ensures Spearman(x, x, root) == if Constant(x) then 0.0 else 1.0
  {
    hide Ranks, Centered, Dot, Constant, Times;
    var s := Dot(Centered(Ranks(x)), Centered(Ranks(x)));
    SquaresNonNegative(Centered(Ranks(x)));
    SpreadOfConstant(x);
    Root(root, s);
    Root(s, root);
    if !Constant(x) { MeanOf(root, 1.0, s); }
  }

  /** `w` is `v` under a strictly decreasing transform. */
  predicate OppositeOrder(v: seq<real>, w: seq<real>)
  {
    |v| == |w| && forall i, j :: 0 <= i < |v| && 0 <= j < |v| ==> (v[i] < v[j] <==> w[j] < w[i])
  }

  lemma {:induction false} CountsOpposed(v: seq<real>, w: seq<real>, x: real, y: real)
    requires |v| == |w|
    requires forall i :: 0 <= i < |v| ==> (v[i] < x <==> y < w[i]) && (v[i] == x <==> w[i] == y)
    ensures CountLess(v, x) + CountEqual(v, x) + CountLess(w, y) == |v| && CountEqual(v, x) == CountEqual(w, y)
  {
    if |v| == 0 {
    } else {
      CountsOpposed(v[1..], w[1..], x, y);
    }
  }

  lemma RanksOpposed(v: seq<real>, w: seq<real>, i: nat)
    requires OppositeOrder(v, w) && i < |v|
    ensures Ranks(v)[i] + Ranks(w)[i] == |v| as real + 1.0
  {
    hide AverageRank, CountLess, CountEqual;
    RankFormula(v, i);
    RankFormula(w, i);
    CountsOpposed(v, w, v[i], w[i]);
  }

  lemma CenteredOpposed(v: seq<real>, w: seq<real>)
    requires OppositeOrder(v, w) && |v| > 0
    ensures forall i :: 0 <= i < |v| ==> Centered(Ranks(w))[i] == -Centered(Ranks(v))[i]
  {
    hide Ranks, Sum;
    var n := |v| as real;
    RanksSum(v);
    RanksSum(w);
    assert (|v| * (|v| + 1)) as real / 2.0 == n * ((n + 1.0) / 2.0);
    MeanOf(n, (n + 1.0) / 2.0, Sum(Ranks(v)));
    forall i | 0 <= i < |v| ensures Centered(Ranks(w))[i] == -Centered(Ranks(v))[i] { RanksOpposed(v, w, i); }
  }

  lemma TimesNegated(x: real, y: real)
    ensures Times(x, -y) == -Times(x, y) && Times(-x, -y) == Times(x, y)
  {
  }

  lemma {:induction false} DotNegated(a: seq<real>, b: seq<real>, c: seq<real>)
    requires |a| == |b| == |c| && forall i :: 0 <= i < |b| ==> c[i] == -b[i]
    ensures Dot(a, c) == -Dot(a, b) && Dot(c, c) == Dot(b, b)
  {
    hide Times;
    if |a| == 0 {
    } else {
      DotNegated(a[1..], b[1..], c[1..]);
      TimesNegated(a[0], b[0]);
      TimesNegated(b[0], b[0]);
    }
  }

  lemma NegatedQuotient(n: real, d: real)
    requires d != 0.0
    ensures -n / d == -(n / d)
  {
  }

  /** Reversing the order of one side negates rho. */
  lemma SpearmanReverses(x: seq<real>, y: seq<real>, y': seq<real>, root: real)
    requires |x| == |y| && |x| > 0 && OppositeOrder(y, y')
    ensures Spread(x, y') == Spread(x, y) && Spearman(x, y', root) == -Spearman(x, y, root)
  {
    hide Dot, Centered, Ranks, Times;
    CenteredOpposed(y, y');
    DotNegated(Centered(Ranks(x)), Centered(Ranks(y)), Centered(Ranks(y')));
    if root != 0.0 { NegatedQuotient(Dot(Centered(Ranks(x)), Centered(Ranks(y))), root); }
  }
}
