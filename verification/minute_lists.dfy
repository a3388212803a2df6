/** Lists of session minutes: the positive-value filter both ledgers apply, and
    the running sum (sumSessions in src/lib/storage.ts, SUM(minutes) on the server). */
module MinuteLists {

  predicate AllPositive(xs: seq<int>) {
    forall i | 0 <= i < |xs| :: xs[i] > 0
  }

  /** xs.filter(n => n > 0): the positive entries, in their original order. */
  function Positive(xs: seq<int>): (r: seq<int>)
    ensures |r| <= |xs|
    ensures AllPositive(r)
    ensures forall x :: x in r <==> x in xs && x > 0
    decreases |xs|
  {
    if |xs| == 0 then []
    else (if xs[0] > 0 then [xs[0]] else []) + Positive(xs[1..])
  }

  /** The filter keeps every positive value as often as it occurs and drops
      every other value. */
  lemma {:induction false} PositiveCounts(xs: seq<int>)
    ensures forall x :: multiset(Positive(xs))[x] == if x > 0 then multiset(xs)[x] else 0
    decreases |xs|
  {
    if |xs| > 0 {
      PositiveCounts(xs[1..]);
      var head := if xs[0] > 0 then [xs[0]] else [];
      assert xs == [xs[0]] + xs[1..];
      assert Positive(xs) == head + Positive(xs[1..]);
    }
  }

  /** The filter distributes over concatenation, so it keeps relative order. */
  lemma {:induction false} PositiveConcat(xs: seq<int>, ys: seq<int>)
    ensures Positive(xs + ys) == Positive(xs) + Positive(ys)
    decreases |xs|
  {
    if |xs| > 0 {
      var head := if xs[0] > 0 then [xs[0]] else [];
      assert (xs + ys)[0] == xs[0] && (xs + ys)[1..] == xs[1..] + ys;
      PositiveConcat(xs[1..], ys);
      assert Positive(xs + ys) == head + Positive(xs[1..] + ys);
    } else {
      assert xs + ys == ys;
    }
  }

  /** The filter changes a list exactly when the list holds a non-positive entry. */
  lemma {:induction false} PositiveIdentity(xs: seq<int>)
    ensures Positive(xs) == xs <==> AllPositive(xs)
    decreases |xs|
  {
    if |xs| > 0 {
      PositiveIdentity(xs[1..]);
      assert xs == [xs[0]] + xs[1..];
    }
  }

  /** Filtering twice is filtering once. */
  lemma PositiveIdempotent(xs: seq<int>)
    ensures Positive(Positive(xs)) == Positive(xs)
  {
    PositiveIdentity(Positive(xs));
  }

  /** sessions.reduce((acc, n) => acc + n, 0): a left fold from 0. */
  function Sum(xs: seq<int>): int
    decreases |xs|
  {
    if |xs| == 0 then 0 else Sum(xs[..|xs| - 1]) + xs[|xs| - 1]
  }

  /** The sum of two lists laid end to end is the sum of their sums. */
  lemma {:induction false} SumConcat(xs: seq<int>, ys: seq<int>)
    ensures Sum(xs + ys) == Sum(xs) + Sum(ys)
    decreases |ys|
  {
    if |ys| == 0 {
      assert xs + ys == xs;
    } else {
      var ys' := ys[..|ys| - 1];
      assert (xs + ys)[..|xs + ys| - 1] == xs + ys';
      SumConcat(xs, ys');
    }
  }

  /** The empty list sums to 0, and appending x adds x. */
  lemma SumAppend(xs: seq<int>, x: int)
    ensures Sum([]) == 0
    ensures Sum(xs + [x]) == Sum(xs) + x
  {
    assert (xs + [x])[..|xs|] == xs;
  }

  /** A list whose entries lie in [lo, hi] sums to between lo and hi times its length. */
  lemma {:induction false} SumBounds(xs: seq<int>, lo: int, hi: int)
    requires forall i | 0 <= i < |xs| :: lo <= xs[i] <= hi
    ensures lo * |xs| <= Sum(xs) <= hi * |xs|
    decreases |xs|
  {
    if |xs| > 0 {
      var n := |xs| - 1;
      SumBounds(xs[..n], lo, hi);
      assert lo * |xs| == lo * n + lo && hi * |xs| == hi * n + hi;
    }
  }
}
