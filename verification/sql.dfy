/**
 * The handful of SQL shapes the pages use, over tables held as sequences of
 * rows: WHERE (filter), LEFT JOIN, ORDER BY ... DESC, LIMIT, and
 * GROUP BY ... COUNT(*). Rows without an ORDER BY come back in storage order.
 * MySQL leaves the order of rows with equal sort keys unspecified; the model
 * fixes one such order and the contracts do not depend on it.
 */
module Sql {
  import opened Wrappers

  /**
   * WHERE: the rows satisfying `p`, each as often as it is stored;
   * FilterPositions shows they keep their storage order.
   */
  function Filter<T(!new)>(xs: seq<T>, p: T -> bool): (r: seq<T>)
    ensures |r| <= |xs|
    ensures forall x :: x in r ==> x in xs && p(x)
    ensures forall x :: x in xs && p(x) ==> x in r
    ensures forall k :: 0 <= k < |r| ==> p(r[k])
    ensures multiset(r) <= multiset(xs)
    decreases |xs|
  {
    if xs == [] then []
    else
      assert xs == [xs[0]] + xs[1..];
      if p(xs[0]) then [xs[0]] + Filter(xs[1..], p)
      else Filter(xs[1..], p)
  }

  /** Filter keeps every copy of a row satisfying `p` and no copy of any other row. */
  lemma {:induction false} FilterCount<T(!new)>(xs: seq<T>, p: T -> bool, x: T)
    ensures multiset(Filter(xs, p))[x] == if p(x) then multiset(xs)[x] else 0
    decreases |xs|
  {
    if xs != [] {
      assert xs == [xs[0]] + xs[1..];
      FilterCount(xs[1..], p, x);
    }
  }

  /**
   * The storage positions of the rows Filter keeps: the k-th kept row is the
   * row at the k-th position, the positions increase, and every position
   * whose row satisfies `p` is among them.
   */
  function FilterPositions<T(!new)>(xs: seq<T>, p: T -> bool): (idx: seq<nat>)
    ensures |idx| == |Filter(xs, p)|
    ensures forall k :: 0 <= k < |idx| ==> idx[k] < |xs| && Filter(xs, p)[k] == xs[idx[k]]
    ensures forall k, l :: 0 <= k < l < |idx| ==> idx[k] < idx[l]
    ensures forall i :: 0 <= i < |xs| && p(xs[i]) ==> i in idx
    decreases |xs|
  {
    if xs == [] then []
    else
      var rest := FilterPositions(xs[1..], p);
      var shifted := Shift(rest);
      ShiftedPositions(xs, p, Filter(xs[1..], p), rest, shifted);
      var idx := if p(xs[0]) then [0] + shifted else shifted;
      FilterUnfold(xs, p);
      HeadDecided(xs, p, Filter(xs, p), Filter(xs[1..], p), shifted, idx);
      idx
  }

  /** Every position one further on. */
  function Shift(idx: seq<nat>): (r: seq<nat>)
    ensures |r| == |idx| && forall k :: 0 <= k < |idx| ==> r[k] == idx[k] + 1
  {
    seq(|idx|, k requires 0 <= k < |idx| => idx[k] + 1)
  }

  /** The positions of the rows kept from `xs[1..]`, counted in `xs`. */
  lemma ShiftedPositions<T>(xs: seq<T>, p: T -> bool, kept: seq<T>, rest: seq<nat>, shifted: seq<nat>)
    requires xs != [] && |rest| == |kept|
    requires forall k :: 0 <= k < |rest| ==> rest[k] < |xs| - 1 && kept[k] == xs[1..][rest[k]]
    requires forall k, l :: 0 <= k < l < |rest| ==> rest[k] < rest[l]
    requires forall i :: 0 <= i < |xs| - 1 && p(xs[1..][i]) ==> i in rest
    requires |shifted| == |rest| && forall k :: 0 <= k < |rest| ==> shifted[k] == rest[k] + 1
    ensures forall k :: 0 <= k < |shifted| ==> 1 <= shifted[k] < |xs| && kept[k] == xs[shifted[k]]
    ensures forall k, l :: 0 <= k < l < |shifted| ==> shifted[k] < shifted[l]
    ensures forall i :: 1 <= i < |xs| && p(xs[i]) ==> i in shifted
  {
    forall i | 1 <= i < |xs| && p(xs[i]) ensures i in shifted {
      assert xs[1..][i - 1] == xs[i];
      var k :| 0 <= k < |rest| && rest[k] == i - 1;
      assert shifted[k] == i;
    }
  }

  lemma FilterUnfold<T(!new)>(xs: seq<T>, p: T -> bool)
    requires xs != []
    ensures Filter(xs, p) == if p(xs[0]) then [xs[0]] + Filter(xs[1..], p) else Filter(xs[1..], p)
  {
  }

  /** The positions Filter keeps, after deciding the first row: `f` is what it keeps of `xs`, `g` of `xs[1..]`. */
  lemma HeadDecided<T>(xs: seq<T>, p: T -> bool, f: seq<T>, g: seq<T>, shifted: seq<nat>, idx: seq<nat>)
    requires xs != [] && f == if p(xs[0]) then [xs[0]] + g else g
    requires |shifted| == |g|
    requires forall k :: 0 <= k < |shifted| ==> 1 <= shifted[k] < |xs| && g[k] == xs[shifted[k]]
    requires forall k, l :: 0 <= k < l < |shifted| ==> shifted[k] < shifted[l]
    requires forall i :: 1 <= i < |xs| && p(xs[i]) ==> i in shifted
    requires idx == if p(xs[0]) then [0] + shifted else shifted
    ensures |idx| == |f|
    ensures forall k :: 0 <= k < |idx| ==> idx[k] < |xs| && f[k] == xs[idx[k]]
    ensures forall k, l :: 0 <= k < l < |idx| ==> idx[k] < idx[l]
    ensures forall i :: 0 <= i < |xs| && p(xs[i]) ==> i in idx
  {
    if p(xs[0]) {
      forall k | 0 <= k < |idx| ensures idx[k] < |xs| && f[k] == xs[idx[k]] {
        if k > 0 {
          assert idx[k] == shifted[k - 1];
          assert f[k] == g[k - 1];
        }
      }
      forall k, l | 0 <= k < l < |idx| ensures idx[k] < idx[l] {
        if k > 0 {
          assert idx[k] == shifted[k - 1];
        }
        assert idx[l] == shifted[l - 1];
      }
    }
  }

  /** The rows are ordered by `key`, largest first. */
  ghost predicate SortedDesc<T>(xs: seq<T>, key: T -> int) {
    forall i, j :: 0 <= i < j < |xs| ==> key(xs[i]) >= key(xs[j])
  }

  lemma ConsSorted<T>(h: T, rest: seq<T>, key: T -> int)
    requires SortedDesc(rest, key)
    requires forall y :: y in rest ==> key(y) <= key(h)
    ensures SortedDesc([h] + rest, key)
  {
    forall i, j | 0 <= i < j < |[h] + rest| ensures key(([h] + rest)[i]) >= key(([h] + rest)[j]) {
      assert ([h] + rest)[j] == rest[j - 1];
      if i > 0 { assert ([h] + rest)[i] == rest[i - 1]; }
    }
  }

  /** Putting a row with a key no smaller than every row of a sorted tail in front keeps the rows sorted. */
  lemma InsertInFront<T>(x: T, xs: seq<T>, key: T -> int)
    requires SortedDesc(xs, key)
    requires xs != [] ==> key(xs[0]) < key(x)
    ensures SortedDesc([x] + xs, key)
  {
    forall y | y in xs ensures key(y) <= key(x) {
      var k :| 0 <= k < |xs| && xs[k] == y;
    }
    ConsSorted(x, xs, key);
  }

  /** Keeping the head of a sorted sequence in front of a sorted rest whose rows all come from its tail, or are a row ranking below it, keeps it sorted. */
  lemma KeepHeadInFront<T>(xs: seq<T>, x: T, rest: seq<T>, key: T -> int)
    requires xs != [] && SortedDesc(xs, key) && SortedDesc(rest, key)
    requires key(xs[0]) >= key(x)
    requires forall y :: y in rest ==> y == x || y in xs[1..]
    ensures SortedDesc([xs[0]] + rest, key)
  {
    forall y | y in rest ensures key(y) <= key(xs[0]) {
      if y != x {
        var k :| 0 <= k < |xs[1..]| && xs[1..][k] == y;
        assert xs[k + 1] == y;
      }
    }
    ConsSorted(xs[0], rest, key);
  }

  function InsertDesc<T>(x: T, xs: seq<T>, key: T -> int): (r: seq<T>)
    requires SortedDesc(xs, key)
    ensures SortedDesc(r, key)
    ensures multiset(r) == multiset(xs) + multiset{x}
    ensures forall y :: y in r ==> y == x || y in xs
    decreases |xs|
  {
    if xs == [] then [x]
    else if key(xs[0]) >= key(x) then
      assert xs == [xs[0]] + xs[1..];
      SortedPrefixTail(xs, key);
      var rest := InsertDesc(x, xs[1..], key);
      KeepHeadInFront(xs, x, rest, key);
      [xs[0]] + rest
    else
      InsertInFront(x, xs, key);
      [x] + xs
  }

  /** The tail of a sorted sequence is sorted. */
  lemma SortedPrefixTail<T>(xs: seq<T>, key: T -> int)
    requires xs != [] && SortedDesc(xs, key)
    ensures SortedDesc(xs[1..], key)
  {
    forall i, j | 0 <= i < j < |xs| - 1 ensures key(xs[1..][i]) >= key(xs[1..][j]) {
      assert xs[1..][i] == xs[i + 1] && xs[1..][j] == xs[j + 1];
    }
  }

  /** ORDER BY key DESC over all rows. */
  function SortDesc<T>(xs: seq<T>, key: T -> int): (r: seq<T>)
    ensures SortedDesc(r, key)
    ensures multiset(r) == multiset(xs)
    decreases |xs|
  {
    if xs == [] then []
    else
      assert xs == [xs[0]] + xs[1..];
      InsertDesc(xs[0], SortDesc(xs[1..], key), key)
  }

  /** LIMIT n. */
  function Limit<T>(xs: seq<T>, n: nat): (r: seq<T>)
    ensures |r| == if |xs| <= n then |xs| else n
    ensures r == xs[..|r|]
  {
    if |xs| <= n then xs else xs[..n]
  }

  /** A prefix of rows sorted by `key` is sorted by `key`. */
  lemma SortedPrefix<T>(s: seq<T>, m: nat, key: T -> int)
    requires SortedDesc(s, key) && m <= |s|
    ensures SortedDesc(s[..m], key)
  {
    forall i, j | 0 <= i < j < m ensures key(s[..m][i]) >= key(s[..m][j]) {
      assert s[..m][i] == s[i] && s[..m][j] == s[j];
    }
  }

  /** A prefix holds no row more often than the whole sequence. */
  lemma PrefixMultiset<T>(s: seq<T>, m: nat)
    requires m <= |s|
    ensures multiset(s[..m]) <= multiset(s)
  {
    assert s == s[..m] + s[m..];
  }

  /**
   * In rows sorted by `key`, a copy that LIMIT m cuts off means rows were cut,
   * and it has a key no larger than any row kept.
   */
  lemma CutCopySortsLater<T>(s: seq<T>, m: nat, key: T -> int, x: T)
    requires SortedDesc(s, key) && m <= |s|
    requires multiset(s[..m])[x] < multiset(s)[x]
    ensures m < |s|
    ensures forall y :: y in s[..m] ==> key(x) <= key(y)
  {
    assert s == s[..m] + s[m..];
    assert multiset(s) == multiset(s[..m]) + multiset(s[m..]);
    assert x in s[m..];
    var k :| 0 <= k < |s[m..]| && s[m..][k] == x;
    assert s[m + k] == x;
    forall y | y in s[..m] ensures key(x) <= key(y) {
      var j :| 0 <= j < m && s[..m][j] == y;
      assert s[j] == y;
    }
  }

  /**
   * ORDER BY key DESC LIMIT n: the n rows with the largest keys, largest
   * first; a copy of a row left out has a key no larger than any row kept.
   */
  function TopBy<T(!new)>(xs: seq<T>, key: T -> int, n: nat): (r: seq<T>)
    ensures |r| == if |xs| <= n then |xs| else n
    ensures SortedDesc(r, key)
    ensures multiset(r) <= multiset(xs)
    ensures forall x :: multiset(r)[x] < multiset(xs)[x] ==> |r| == n && forall y :: y in r ==> key(x) <= key(y)
  {
    var s := SortDesc(xs, key);
    assert |s| == |xs| by {
      assert |multiset(s)| == |multiset(xs)|;
    }
    var m := if |s| <= n then |s| else n;
    SortedPrefix(s, m, key);
    PrefixMultiset(s, m);
    forall x | multiset(s[..m])[x] < multiset(xs)[x]
      ensures m == n && forall y :: y in s[..m] ==> key(x) <= key(y)
    {
      CutCopySortsLater(s, m, key, x);
    }
    s[..m]
  }

  /** A row TopBy leaves out means n rows were kept, none with a smaller key. */
  lemma TopByLeftOut<T(!new)>(xs: seq<T>, key: T -> int, n: nat, x: T)
    requires x in xs && x !in TopBy(xs, key, n)
    ensures |TopBy(xs, key, n)| == n
    ensures forall y :: y in TopBy(xs, key, n) ==> key(x) <= key(y)
  {
  }

  /** A row that TopBy keeps is one of its input rows. */
  lemma TopByKeepsInputRows<T(!new)>(xs: seq<T>, key: T -> int, n: nat, x: T)
    requires x in TopBy(xs, key, n)
    ensures x in xs
  {
    assert x in multiset(TopBy(xs, key, n));
  }

  /**
   * WHERE p ORDER BY key DESC LIMIT n: up to n rows satisfying `p`, largest
   * key first; a stored copy of a satisfying row that is left out means n
   * rows were kept, none with a smaller key than it.
   */
  function TopWhere<T(!new)>(xs: seq<T>, p: T -> bool, key: T -> int, n: nat): (r: seq<T>)
    ensures |r| == if |Filter(xs, p)| <= n then |Filter(xs, p)| else n
    ensures forall x :: x in r ==> x in xs && p(x)
    ensures multiset(r) <= multiset(xs)
    ensures SortedDesc(r, key)
    ensures forall x :: p(x) && multiset(r)[x] < multiset(xs)[x] ==> |r| == n && forall y :: y in r ==> key(x) <= key(y)
  {
    var m := Filter(xs, p);
    var r := TopBy(m, key, n);
    forall x | x in r ensures x in m {
      TopByKeepsInputRows(m, key, n, x);
    }
    forall x | p(x) && multiset(r)[x] < multiset(xs)[x] ensures multiset(r)[x] < multiset(m)[x] {
      FilterCount(xs, p, x);
    }
    r
  }

  /** The first row of `xs` satisfying `p`: what `fetch()` returns without an ORDER BY. */
  function First<T>(xs: seq<T>, p: T -> bool): (r: Option<T>)
    ensures r.Some? ==> r.value in xs && p(r.value)
    ensures r.None? <==> forall x :: x in xs ==> !p(x)
    decreases |xs|
  {
    if xs == [] then None
    else if p(xs[0]) then Some(xs[0])
    else
      assert forall x :: x in xs ==> x == xs[0] || x in xs[1..];
      First(xs[1..], p)
  }

  /** `First` picks the earliest matching row. */
  lemma {:induction false} FirstIsEarliest<T>(xs: seq<T>, p: T -> bool, k: nat)
    requires k < |xs| && p(xs[k])
    requires forall j :: 0 <= j < k ==> !p(xs[j])
    ensures First(xs, p) == Some(xs[k])
    decreases k
  {
    if k > 0 {
      assert xs[1..][k - 1] == xs[k];
      FirstIsEarliest(xs[1..], p, k - 1);
    }
  }

  /** The last row of `xs` satisfying `p`: what a loop that overwrites one variable per matching row keeps. */
  function Last<T>(xs: seq<T>, p: T -> bool): (r: Option<T>)
    ensures r.Some? ==> r.value in xs && p(r.value)
    ensures r.None? <==> forall x :: x in xs ==> !p(x)
    decreases |xs|
  {
    if xs == [] then None
    else if p(xs[|xs| - 1]) then Some(xs[|xs| - 1])
    else
      assert forall x :: x in xs ==> x == xs[|xs| - 1] || x in xs[..|xs| - 1];
      Last(xs[..|xs| - 1], p)
  }

  /** `Last` of a row followed by more rows: the last match among the rest, if any, otherwise the row itself when it matches. */
  lemma {:induction false} LastOfCons<T>(h: T, t: seq<T>, p: T -> bool)
    ensures Last([h] + t, p) == if Last(t, p).Some? then Last(t, p) else if p(h) then Some(h) else None
    decreases |t|
  {
    var xs := [h] + t;
    if t != [] {
      assert xs[|xs| - 1] == t[|t| - 1];
      assert xs[..|xs| - 1] == [h] + t[..|t| - 1];
      if !p(t[|t| - 1]) {
        LastOfCons(h, t[..|t| - 1], p);
      }
    } else {
      assert xs == [h];
    }
  }

  /** Two conditions that agree on every row pick the same first row. */
  lemma {:induction false} FirstAgrees<T>(xs: seq<T>, p: T -> bool, q: T -> bool)
    requires forall x :: x in xs ==> p(x) == q(x)
    ensures First(xs, p) == First(xs, q)
    decreases |xs|
  {
    if xs != [] {
      assert forall x :: x in xs[1..] ==> x in xs;
      FirstAgrees(xs[1..], p, q);
    }
  }

  /** Appending a row does not change the first match when there already was one, and makes the row the first when there was none. */
  lemma {:induction false} FirstAfterAppend<T>(xs: seq<T>, y: T, p: T -> bool)
    ensures First(xs, p).Some? ==> First(xs + [y], p) == First(xs, p)
    ensures First(xs, p).None? ==> First(xs + [y], p) == if p(y) then Some(y) else None
    decreases |xs|
  {
    if xs != [] {
      assert (xs + [y])[1..] == xs[1..] + [y];
      FirstAfterAppend(xs[1..], y, p);
    } else {
      assert [] + [y] == [y];
    }
  }

  /** The condition ON on(a, b) with the left row fixed to `a`. */
  function Matching<A, B>(on: (A, B) -> bool, a: A): B -> bool {
    (b: B) => on(a, b)
  }

  /**
   * `Last` over the rows WHERE `p` keeps, tested with `q`, is `Last` over
   * all rows tested with `s`, the condition that both hold.
   */
  lemma {:induction false} LastOfFilter<T(!new)>(xs: seq<T>, p: T -> bool, q: T -> bool, s: T -> bool)
    requires forall x :: s(x) == (p(x) && q(x))
    ensures Last(Filter(xs, p), q) == Last(xs, s)
    decreases |xs|
  {
    if xs != [] {
      var h, t := xs[0], xs[1..];
      assert xs == [h] + t;
      LastOfFilter(t, p, q, s);
      LastOfCons(h, t, s);
      if p(h) {
        LastOfCons(h, Filter(t, p), q);
      }
    }
  }

  /** `a` paired with each of the rows `ms`, in order. */
  function Pairs<A, B(!new)>(a: A, ms: seq<B>): (r: seq<(A, Option<B>)>)
    ensures |r| == |ms|
    ensures forall k :: 0 <= k < |r| ==> r[k] == (a, Some(ms[k]))
    ensures forall b :: multiset(r)[(a, Some(b))] == multiset(ms)[b]
    decreases |ms|
  {
    if ms == [] then []
    else
      assert ms == [ms[0]] + ms[1..];
      [(a, Some(ms[0]))] + Pairs(a, ms[1..])
  }

  /**
   * The rows of `right` joined to the left row `a`, each as often as it is
   * stored, or one NULL-extended row when none match; the first joined row
   * carries the first match.
   */
  function JoinOne<A, B(!new)>(a: A, right: seq<B>, on: (A, B) -> bool): (r: seq<(A, Option<B>)>)
    ensures |r| > 0 && r[0] == (a, First(right, Matching(on, a)))
    ensures forall row :: row in r ==> row.0 == a
    ensures forall row :: row in r && row.1.Some? ==> row.1.value in right && on(a, row.1.value)
    ensures forall row :: row in r && row.1.None? ==> forall b :: b in right ==> !on(a, b)
    ensures forall b :: b in right && on(a, b) ==> (a, Some(b)) in r
    ensures forall b :: on(a, b) ==> multiset(r)[(a, Some(b))] == multiset(right)[b]
    ensures (forall b :: b in right ==> !on(a, b)) ==> multiset(r)[(a, None)] == 1
  {
    var p := Matching(on, a);
    var ms := Filter(right, p);
    FilterHeadIsFirst(right, p);
    forall b ensures multiset(ms)[b] == if on(a, b) then multiset(right)[b] else 0 {
      FilterCount(right, p, b);
    }
    if ms == [] then
      JoinNoMatch(a, right, on, ms, First(right, p), [(a, None)]);
      [(a, None)]
    else
      JoinMatches(a, right, on, ms, First(right, p), Pairs(a, ms));
      Pairs(a, ms)
  }

  /** What JoinOne promises when no row of `right` matches `a`. */
  lemma JoinNoMatch<A, B(!new)>(a: A, right: seq<B>, on: (A, B) -> bool, ms: seq<B>, first: Option<B>, r: seq<(A, Option<B>)>)
    requires forall b :: b in ms ==> b in right && on(a, b)
    requires forall b :: multiset(ms)[b] == if on(a, b) then multiset(right)[b] else 0
    requires ms == [] && first.None? && r == [(a, None)]
    ensures |r| > 0 && r[0] == (a, first)
    ensures forall row :: row in r ==> row.0 == a
    ensures forall row :: row in r && row.1.Some? ==> row.1.value in right && on(a, row.1.value)
    ensures forall row :: row in r && row.1.None? ==> forall b :: b in right ==> !on(a, b)
    ensures forall b :: b in right && on(a, b) ==> (a, Some(b)) in r
    ensures forall b :: on(a, b) ==> multiset(r)[(a, Some(b))] == multiset(right)[b]
    ensures (forall b :: b in right ==> !on(a, b)) ==> multiset(r)[(a, None)] == 1
  {
  }

  /** What JoinOne promises when the rows `ms` of `right` match `a`, `first` the first of them. */
  lemma JoinMatches<A, B(!new)>(a: A, right: seq<B>, on: (A, B) -> bool, ms: seq<B>, first: Option<B>, r: seq<(A, Option<B>)>)
    requires forall b :: b in ms ==> b in right && on(a, b)
    requires forall b :: multiset(ms)[b] == if on(a, b) then multiset(right)[b] else 0
    requires ms != [] && first == Some(ms[0]) && r == Pairs(a, ms)
    ensures |r| > 0 && r[0] == (a, first)
    ensures forall row :: row in r ==> row.0 == a
    ensures forall row :: row in r && row.1.Some? ==> row.1.value in right && on(a, row.1.value)
    ensures forall row :: row in r && row.1.None? ==> forall b :: b in right ==> !on(a, b)
    ensures forall b :: b in right && on(a, b) ==> (a, Some(b)) in r
    ensures forall b :: on(a, b) ==> multiset(r)[(a, Some(b))] == multiset(right)[b]
    ensures (forall b :: b in right ==> !on(a, b)) ==> multiset(r)[(a, None)] == 1
  {
    forall b | b in right && on(a, b) ensures (a, Some(b)) in r {
      assert multiset(right)[b] > 0;
      assert multiset(ms)[b] > 0;
      PairsCover(a, ms, r);
    }
    forall row | row in r ensures row.0 == a && row.1.Some? && row.1.value in ms {
      var k :| 0 <= k < |r| && r[k] == row;
    }
  }

  /** Every kept row of `right` appears paired with `a`. */
  lemma PairsCover<A, B>(a: A, ms: seq<B>, r: seq<(A, Option<B>)>)
    requires |r| == |ms| && forall k :: 0 <= k < |ms| ==> r[k] == (a, Some(ms[k]))
    ensures forall b :: b in ms ==> (a, Some(b)) in r
  {
    forall b | b in ms ensures (a, Some(b)) in r {
      var k :| 0 <= k < |ms| && ms[k] == b;
      assert r[k] == (a, Some(b));
    }
  }

  /** The first row Filter keeps is the row `First` finds. */
  lemma {:induction false} FilterHeadIsFirst<T(!new)>(xs: seq<T>, p: T -> bool)
    ensures Filter(xs, p) == [] <==> First(xs, p).None?
    ensures Filter(xs, p) != [] ==> Filter(xs, p)[0] == First(xs, p).value
    decreases |xs|
  {
    if xs != [] && !p(xs[0]) {
      FilterHeadIsFirst(xs[1..], p);
    }
  }

  /**
   * LEFT JOIN right ON on(a, b), as a nested loop over `left` then `right`:
   * a matching pair appears once for each copy of its two rows, and a left
   * row without a match once per copy with NULL.
   */
  function LeftJoin<A(!new), B(!new)>(left: seq<A>, right: seq<B>, on: (A, B) -> bool): (r: seq<(A, Option<B>)>)
    ensures forall row :: row in r ==> row.0 in left
    ensures forall row :: row in r && row.1.Some? ==> row.1.value in right && on(row.0, row.1.value)
    ensures forall row :: row in r && row.1.None? ==> forall b :: b in right ==> !on(row.0, b)
    ensures forall a, b :: a in left && b in right && on(a, b) ==> (a, Some(b)) in r
    ensures forall a :: a in left && (forall b :: b in right ==> !on(a, b)) ==> (a, None) in r
    ensures forall a, b :: on(a, b) ==> multiset(r)[(a, Some(b))] == Product(multiset(left)[a], multiset(right)[b])
    ensures forall a :: (forall b :: b in right ==> !on(a, b)) ==> multiset(r)[(a, None)] == multiset(left)[a]
    decreases |left|
  {
    if left == [] then []
    else
      var head := JoinOne(left[0], right, on);
      var tail := LeftJoin(left[1..], right, on);
      JoinStep(left, right, on, head, tail);
      JoinPairCounts(left, right, on, head, tail);
      head + tail
  }

  /** What LeftJoin promises, for the rows `head` joined to `left[0]` followed by the join `tail` of the rest. */
  lemma JoinStep<A(!new), B>(left: seq<A>, right: seq<B>, on: (A, B) -> bool, head: seq<(A, Option<B>)>, tail: seq<(A, Option<B>)>)
    requires |left| > 0
    requires forall row :: row in head ==> row.0 == left[0]
    requires forall row :: row in head && row.1.Some? ==> row.1.value in right && on(left[0], row.1.value)
    requires forall row :: row in head && row.1.None? ==> forall b :: b in right ==> !on(left[0], b)
    requires forall b :: b in right && on(left[0], b) ==> (left[0], Some(b)) in head
    requires (forall b :: b in right ==> !on(left[0], b)) ==> multiset(head)[(left[0], None)] == 1
    requires forall row :: row in tail ==> row.0 in left[1..]
    requires forall row :: row in tail && row.1.Some? ==> row.1.value in right && on(row.0, row.1.value)
    requires forall row :: row in tail && row.1.None? ==> forall b :: b in right ==> !on(row.0, b)
    requires forall a, b :: a in left[1..] && b in right && on(a, b) ==> (a, Some(b)) in tail
    requires forall a :: a in left[1..] && (forall b :: b in right ==> !on(a, b)) ==> (a, None) in tail
    requires forall a :: (forall b :: b in right ==> !on(a, b)) ==> multiset(tail)[(a, None)] == multiset(left[1..])[a]
    ensures forall row :: row in head + tail ==> row.0 in left
    ensures forall row :: row in head + tail && row.1.Some? ==> row.1.value in right && on(row.0, row.1.value)
    ensures forall row :: row in head + tail && row.1.None? ==> forall b :: b in right ==> !on(row.0, b)
    ensures forall a, b :: a in left && b in right && on(a, b) ==> (a, Some(b)) in head + tail
    ensures forall a :: a in left && (forall b :: b in right ==> !on(a, b)) ==> (a, None) in head + tail
    ensures forall a :: (forall b :: b in right ==> !on(a, b)) ==> multiset(head + tail)[(a, None)] == multiset(left)[a]
  {
    assert left == [left[0]] + left[1..];
    assert forall a :: a in left ==> a == left[0] || a in left[1..];
    forall a | forall b :: b in right ==> !on(a, b) ensures multiset(head + tail)[(a, None)] == multiset(left)[a] {
      if a != left[0] {
        assert (a, None) !in head;
      }
    }
    forall a | a == left[0] && (forall b :: b in right ==> !on(a, b)) ensures (a, None) in head {
      assert multiset(head)[(a, None)] == 1;
    }
  }

  /** LeftJoin's count of matching pairs, for the rows `head` joined to `left[0]` followed by the join `tail` of the rest. */
  lemma JoinPairCounts<A(!new), B(!new)>(left: seq<A>, right: seq<B>, on: (A, B) -> bool, head: seq<(A, Option<B>)>, tail: seq<(A, Option<B>)>)
    requires |left| > 0
    requires forall row :: row in head ==> row.0 == left[0]
    requires forall b :: on(left[0], b) ==> multiset(head)[(left[0], Some(b))] == multiset(right)[b]
    requires forall a, b :: on(a, b) ==> multiset(tail)[(a, Some(b))] == Product(multiset(left[1..])[a], multiset(right)[b])
    ensures forall a, b :: on(a, b) ==> multiset(head + tail)[(a, Some(b))] == Product(multiset(left)[a], multiset(right)[b])
  {
    assert left == [left[0]] + left[1..];
    forall a, b | on(a, b) ensures multiset(head + tail)[(a, Some(b))] == Product(multiset(left)[a], multiset(right)[b]) {
      var m := multiset(left[1..])[a];
      var n := multiset(right)[b];
      if a == left[0] {
        assert multiset(left)[a] == m + 1;
        ProductSucc(m, n);
      } else {
        assert (a, Some(b)) !in head;
      }
    }
  }

  /** `First` over two stretches of rows: the first match in the first stretch, else the first in the second. */
  lemma {:induction false} FirstOfConcat<T>(xs: seq<T>, ys: seq<T>, p: T -> bool)
    ensures First(xs + ys, p) == if First(xs, p).Some? then First(xs, p) else First(ys, p)
    decreases |xs|
  {
    if xs == [] {
      assert xs + ys == ys;
    } else {
      assert (xs + ys)[0] == xs[0] && (xs + ys)[1..] == xs[1..] + ys;
      if !p(xs[0]) {
        FirstOfConcat(xs[1..], ys, p);
      }
    }
  }

  /**
   * `fetch()` over a LEFT JOIN, selecting on the left row (`sel` tests the
   * joined row by its left part with `q`): the first left row that
   * qualifies, paired with its first matching right row or NULL.
   */
  lemma {:induction false} FirstOfLeftJoin<A(!new), B(!new)>(left: seq<A>, right: seq<B>, on: (A, B) -> bool, q: A -> bool, sel: ((A, Option<B>)) -> bool)
    requires forall row :: sel(row) == q(row.0)
    ensures First(LeftJoin(left, right, on), sel)
         == match First(left, q)
            case None => None
            case Some(a) => Some((a, First(right, Matching(on, a))))
    decreases |left|
  {
    if left != [] {
      var head := JoinOne(left[0], right, on);
      var tail := LeftJoin(left[1..], right, on);
      assert LeftJoin(left, right, on) == head + tail;
      FirstOfConcat(head, tail, sel);
      if q(left[0]) {
        assert sel(head[0]);
      } else {
        assert forall row :: row in head ==> !sel(row);
        FirstOfLeftJoin(left[1..], right, on, q, sel);
      }
    }
  }

  /** The number of joined copies of a pair whose two rows are stored `m` and `n` times. */
  function Product(m: nat, n: nat): nat {
    m * n
  }

  /** One more copy of the left row adds one copy of the pair per copy of the right row. */
  lemma ProductSucc(m: nat, n: nat)
    ensures Product(m + 1, n) == Product(m, n) + n
  {
    assert (m + 1) * n == m * n + n;
  }

  /** `a` paired with each of the rows `ms`, in order, without NULL. */
  function InnerPairs<A, B(!new)>(a: A, ms: seq<B>): (r: seq<(A, B)>)
    ensures forall row :: row in r ==> row.0 == a && row.1 in ms
    ensures forall b :: b in ms ==> (a, b) in r
    ensures forall b :: multiset(r)[(a, b)] == multiset(ms)[b]
    decreases |ms|
  {
    if ms == [] then []
    else
      assert ms == [ms[0]] + ms[1..];
      [(a, ms[0])] + InnerPairs(a, ms[1..])
  }

  /**
   * JOIN right ON on(a, b), as a nested loop over `left` then `right`: every
   * matching pair, once for each copy of its two rows.
   */
  function InnerJoin<A(!new), B(!new)>(left: seq<A>, right: seq<B>, on: (A, B) -> bool): (r: seq<(A, B)>)
    ensures forall row :: row in r ==> row.0 in left && row.1 in right && on(row.0, row.1)
    ensures forall a, b :: a in left && b in right && on(a, b) ==> (a, b) in r
    ensures forall a, b :: on(a, b) ==> multiset(r)[(a, b)] == Product(multiset(left)[a], multiset(right)[b])
    decreases |left|
  {
    if left == [] then []
    else
      var ms := Filter(right, Matching(on, left[0]));
      forall b ensures multiset(ms)[b] == if on(left[0], b) then multiset(right)[b] else 0 {
        FilterCount(right, Matching(on, left[0]), b);
      }
      var head := InnerPairs(left[0], ms);
      var tail := InnerJoin(left[1..], right, on);
      InnerJoinStep(left, right, on, ms, head, tail);
      InnerJoinCounts(left, right, on, head, tail);
      head + tail
  }

  /** InnerJoin's membership, for the pairs `head` of `left[0]` with its matches `ms` followed by the join `tail` of the rest. */
  lemma InnerJoinStep<A(!new), B(!new)>(left: seq<A>, right: seq<B>, on: (A, B) -> bool, ms: seq<B>, head: seq<(A, B)>, tail: seq<(A, B)>)
    requires |left| > 0
    requires forall b :: b in ms ==> b in right && on(left[0], b)
    requires forall b :: multiset(ms)[b] == if on(left[0], b) then multiset(right)[b] else 0
    requires forall row :: row in head ==> row.0 == left[0] && row.1 in ms
    requires forall b :: b in ms ==> (left[0], b) in head
    requires forall row :: row in tail ==> row.0 in left[1..] && row.1 in right && on(row.0, row.1)
    requires forall a, b :: a in left[1..] && b in right && on(a, b) ==> (a, b) in tail
    ensures forall row :: row in head + tail ==> row.0 in left && row.1 in right && on(row.0, row.1)
    ensures forall a, b :: a in left && b in right && on(a, b) ==> (a, b) in head + tail
  {
    assert forall a :: a in left ==> a == left[0] || a in left[1..];
    forall b | b in right && on(left[0], b) ensures (left[0], b) in head {
      assert multiset(right)[b] > 0;
      assert multiset(ms)[b] > 0;
    }
  }

  /** InnerJoin's count of each pair, for the pairs `head` of `left[0]` followed by the join `tail` of the rest. */
  lemma InnerJoinCounts<A(!new), B(!new)>(left: seq<A>, right: seq<B>, on: (A, B) -> bool, head: seq<(A, B)>, tail: seq<(A, B)>)
    requires |left| > 0
    requires forall row :: row in head ==> row.0 == left[0]
    requires forall b :: on(left[0], b) ==> multiset(head)[(left[0], b)] == multiset(right)[b]
    requires forall a, b :: on(a, b) ==> multiset(tail)[(a, b)] == Product(multiset(left[1..])[a], multiset(right)[b])
    ensures forall a, b :: on(a, b) ==> multiset(head + tail)[(a, b)] == Product(multiset(left)[a], multiset(right)[b])
  {
    assert left == [left[0]] + left[1..];
    forall a, b | on(a, b) ensures multiset(head + tail)[(a, b)] == Product(multiset(left)[a], multiset(right)[b]) {
      if a == left[0] {
        ProductSucc(multiset(left[1..])[a], multiset(right)[b]);
      } else {
        assert (a, b) !in head;
      }
    }
  }

  /** Filtering twice by the same condition is filtering once. */
  lemma {:induction false} FilterIdempotent<T(!new)>(xs: seq<T>, p: T -> bool)
    ensures Filter(Filter(xs, p), p) == Filter(xs, p)
    decreases |xs|
  {
    if xs != [] {
      FilterIdempotent(xs[1..], p);
      if p(xs[0]) {
        var r := [xs[0]] + Filter(xs[1..], p);
        assert r[0] == xs[0] && r[1..] == Filter(xs[1..], p);
      }
    }
  }

  /** A condition every row satisfies filters nothing out. */
  lemma {:induction false} FilterKeepsAll<T(!new)>(xs: seq<T>, p: T -> bool)
    requires forall x :: x in xs ==> p(x)
    ensures Filter(xs, p) == xs
    decreases |xs|
  {
    if xs != [] {
      assert forall x :: x in xs[1..] ==> x in xs;
      FilterKeepsAll(xs[1..], p);
      assert xs == [xs[0]] + xs[1..];
    }
  }

  /** A row that occurs at least twice occurs at two distinct positions. */
  lemma TwoPositions<T>(xs: seq<T>, y: T)
    requires multiset(xs)[y] >= 2
    ensures exists a, b :: 0 <= a < b < |xs| && xs[a] == y && xs[b] == y
  {
    var a :| 0 <= a < |xs| && xs[a] == y;
    var rest := xs[..a] + xs[a + 1..];
    assert xs == xs[..a] + [xs[a]] + xs[a + 1..];
    assert multiset(rest)[y] >= 1;
    var k :| 0 <= k < |rest| && rest[k] == y;
    if k < a {
      assert xs[k] == y;
    } else {
      assert xs[k + 1] == y;
    }
  }

  /** Rows taken from a sequence whose grouping keys are all different have all different keys too. */
  lemma DistinctKeysKept<T, K>(xs: seq<T>, ys: seq<T>, f: T -> K)
    requires multiset(ys) <= multiset(xs)
    requires forall i, j :: 0 <= i < j < |xs| ==> f(xs[i]) != f(xs[j])
    ensures forall i, j :: 0 <= i < j < |ys| ==> f(ys[i]) != f(ys[j])
  {
    forall i, j | 0 <= i < j < |ys| ensures f(ys[i]) != f(ys[j]) {
      assert ys[i] in multiset(xs) && ys[j] in multiset(xs);
      var a :| 0 <= a < |xs| && xs[a] == ys[i];
      var b :| 0 <= b < |xs| && xs[b] == ys[j];
      if f(ys[i]) == f(ys[j]) {
        if a == b {
          assert multiset(ys)[ys[i]] >= 2 by {
            assert ys == ys[..j] + [ys[j]] + ys[j + 1..];
            assert ys[..j][i] == ys[i];
          }
          TwoPositions(xs, ys[i]);
        }
        assert false;
      }
    }
  }

  /** How many rows have grouping key `g`. */
  function CountOf<T(==)>(xs: seq<T>, g: T): (n: nat)
    ensures n == multiset(xs)[g]
    decreases |xs|
  {
    if xs == [] then 0
    else
      assert xs == [xs[0]] + xs[1..];
      (if xs[0] == g then 1 else 0) + CountOf(xs[1..], g)
  }

  /** The distinct grouping keys, each once, in order of last appearance. */
  function Distinct<T(==,!new)>(xs: seq<T>): (r: seq<T>)
    ensures forall x :: x in r <==> x in xs
    ensures forall i, j :: 0 <= i < j < |r| ==> r[i] != r[j]
    decreases |xs|
  {
    if xs == [] then []
    else
      var rest := Distinct(xs[1..]);
      if xs[0] in rest then rest else [xs[0]] + rest
  }

  /** GROUP BY g with COUNT(*): one (key, count) pair per distinct key. */
  function GroupCount<T(==,!new)>(xs: seq<T>): (r: seq<(T, nat)>)
    ensures forall p :: p in r ==> p.0 in xs && p.1 == multiset(xs)[p.0]
    ensures forall x :: x in xs ==> (x, multiset(xs)[x]) in r
    ensures forall i, j :: 0 <= i < j < |r| ==> r[i].0 != r[j].0
  {
    var keys := Distinct(xs);
    var r := seq(|keys|, k requires 0 <= k < |keys| => (keys[k], CountOf(xs, keys[k])));
    assert forall x :: x in xs ==> (x, multiset(xs)[x]) in r by {
      forall x | x in xs ensures (x, multiset(xs)[x]) in r {
        var k :| 0 <= k < |keys| && keys[k] == x;
        assert r[k] == (x, multiset(xs)[x]);
      }
    }
    r
  }
}
