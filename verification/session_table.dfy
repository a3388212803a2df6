/** The sauna_sessions relation and the SQL statements the server actions run on
    it (src/app/actions/saunaSessions.ts). The relation is a bag of rows; the
    sequence order is physical and carries no meaning. Columns the actions never
    write (id, created_at) are left out. */
module SessionTable {
  import opened Wrappers

  /** One row: owner, day key, 1-based position within the day, minutes. */
  datatype Row = Row(user: string, date: string, order: int, minutes: int)

  type Table = seq<Row>

  /** WHERE user_id = user AND date = date */
  predicate InDay(r: Row, user: string, date: string) {
    r.user == user && r.date == date
  }

  /** The rows of one user on one day. */
  function Day(t: Table, user: string, date: string): (rows: seq<Row>)
    ensures |rows| <= |t|
    ensures forall r :: r in rows <==> r in t && InDay(r, user, date)
    decreases |t|
  {
    if |t| == 0 then []
    else (if InDay(t[0], user, date) then [t[0]] else []) + Day(t[1..], user, date)
  }

  /** DELETE FROM sauna_sessions WHERE user_id = user AND date = date: what remains. */
  function OtherDays(t: Table, user: string, date: string): (rows: Table)
    ensures forall r :: r in rows <==> r in t && !InDay(r, user, date)
    decreases |t|
  {
    if |t| == 0 then []
    else (if InDay(t[0], user, date) then [] else [t[0]]) + OtherDays(t[1..], user, date)
  }

  /** WHERE user_id = user */
  function UserRows(t: Table, user: string): (rows: seq<Row>)
    ensures forall r :: r in rows <==> r in t && r.user == user
    decreases |t|
  {
    if |t| == 0 then []
    else (if t[0].user == user then [t[0]] else []) + UserRows(t[1..], user)
  }

  /** The rows whose session_order is o, in physical order. */
  function Bucket(rows: seq<Row>, o: int): (b: seq<Row>)
    ensures |b| <= |rows|
    ensures forall r :: r in b <==> r in rows && r.order == o
    decreases |rows|
  {
    if |rows| == 0 then []
    else (if rows[0].order == o then [rows[0]] else []) + Bucket(rows[1..], o)
  }

  /** DELETE ... WHERE user_id = user AND date = date AND session_order = o */
  function DeleteSlot(t: Table, user: string, date: string, o: int): (rows: Table)
    ensures forall r :: r in rows <==> r in t && !(InDay(r, user, date) && r.order == o)
    decreases |t|
  {
    if |t| == 0 then []
    else (if InDay(t[0], user, date) && t[0].order == o then [] else [t[0]]) + DeleteSlot(t[1..], user, date, o)
  }

  /** SET session_order = session_order - 1 for one row, when the WHERE clause
      user_id = user AND date = date AND session_order > o selects it. */
  function Lower(r: Row, user: string, date: string, o: int): Row {
    if InDay(r, user, date) && r.order > o then r.(order := r.order - 1) else r
  }

  /** UPDATE ... SET session_order = session_order - 1 WHERE user_id = user AND date = date AND session_order > o */
  function ShiftDown(t: Table, user: string, date: string, o: int): Table {
    seq(|t|, i requires 0 <= i < |t| => Lower(t[i], user, date, o))
  }

  /** The rows the INSERT loop of setSessions writes: order i + 1 for xs[i]. */
  function Numbered(user: string, date: string, xs: seq<int>): Table {
    seq(|xs|, i requires 0 <= i < |xs| => Row(user, date, i + 1, xs[i]))
  }

  /** rows.map(r => r.minutes) */
  function Minutes(rows: seq<Row>): (ms: seq<int>)
    ensures |ms| == |rows|
    ensures forall i | 0 <= i < |rows| :: ms[i] == rows[i].minutes
    decreases |rows|
  {
    if |rows| == 0 then [] else [rows[0].minutes] + Minutes(rows[1..])
  }

  /** MAX(session_order); None is SQL's NULL for no rows. */
  function MaxOrder(rows: seq<Row>): (m: Option<int>)
    ensures m.None? <==> |rows| == 0
    ensures m.Some? ==> forall r | r in rows :: r.order <= m.value
    ensures m.Some? ==> exists r | r in rows :: r.order == m.value
    decreases |rows|
  {
    if |rows| == 0 then None
    else match MaxOrder(rows[1..])
      case None => Some(rows[0].order)
      case Some(m) => Some(if rows[0].order > m then rows[0].order else m)
  }

  /** MIN(session_order); None for no rows. */
  function MinOrder(rows: seq<Row>): (m: Option<int>)
    ensures m.None? <==> |rows| == 0
    ensures m.Some? ==> forall r | r in rows :: m.value <= r.order
    ensures m.Some? ==> exists r | r in rows :: r.order == m.value
    decreases |rows|
  {
    if |rows| == 0 then None
    else match MinOrder(rows[1..])
      case None => Some(rows[0].order)
      case Some(m) => Some(if rows[0].order < m then rows[0].order else m)
  }

  /** Ascending by order. */
  predicate SortedByOrder(s: seq<Row>) {
    forall i, j | 0 <= i < j < |s| :: s[i].order <= s[j].order
  }

  /** The rows with orders lo, lo + 1, ..., lo + n - 1, one order after the other. */
  function Collect(rows: seq<Row>, lo: int, n: nat): seq<Row>
    decreases n
  {
    if n == 0 then [] else Bucket(rows, lo) + Collect(rows, lo + 1, n - 1)
  }

  /** Collecting lo..lo+n-1 yields rows of those orders, ascending. */
  lemma {:induction false} CollectSorted(rows: seq<Row>, lo: int, n: nat)
    ensures forall r | r in Collect(rows, lo, n) :: lo <= r.order < lo + n
    ensures SortedByOrder(Collect(rows, lo, n))
    decreases n
  {
    if n > 0 {
      var b := Bucket(rows, lo);
      var c := Collect(rows, lo + 1, n - 1);
      CollectSorted(rows, lo + 1, n - 1);
      SortedConcat(b, c, lo);
      assert Collect(rows, lo, n) == b + c;
    }
  }

  /** Rows of order lo followed by sorted rows of larger orders are sorted. */
  lemma SortedConcat(b: seq<Row>, c: seq<Row>, lo: int)
    requires forall r | r in b :: r.order == lo
    requires forall r | r in c :: lo < r.order
    requires SortedByOrder(c)
    ensures SortedByOrder(b + c)
  {
    var s := b + c;
    forall i, j | 0 <= i < j < |s| ensures s[i].order <= s[j].order {
      if j < |b| {
        assert s[i] == b[i] && s[j] == b[j] && b[i] in b && b[j] in b;
      } else if i < |b| {
        assert s[i] == b[i] && b[i] in b && s[j] == c[j - |b|] && c[j - |b|] in c;
      } else {
        assert s[i] == c[i - |b|] && s[j] == c[j - |b|];
      }
    }
  }

  /** ORDER BY session_order ASC: the rows sorted by order, rows of equal order
      in physical order. */
  function SortByOrder(rows: seq<Row>): (s: seq<Row>)
    ensures multiset(s) == multiset(rows)
    ensures SortedByOrder(s)
  {
    if |rows| == 0 then []
    else
      var lo := MinOrder(rows).value;
      var n := MaxOrder(rows).value - lo + 1;
      SortFacts(rows, lo, n);
      Collect(rows, lo, n)
  }

  /** Collecting from MIN(session_order) to MAX(session_order) sorts the rows. */
  lemma SortFacts(rows: seq<Row>, lo: int, n: int)
    requires |rows| > 0 && MinOrder(rows) == Some(lo) && n == MaxOrder(rows).value - lo + 1
    ensures n >= 0
    ensures multiset(Collect(rows, lo, n)) == multiset(rows)
    ensures SortedByOrder(Collect(rows, lo, n))
  {
    OrderRange(rows);
    CollectEverything(rows, lo, n);
    CollectSorted(rows, lo, n);
  }

  /** Every order lies between MIN(session_order) and MAX(session_order). */
  lemma OrderRange(rows: seq<Row>)
    requires |rows| > 0
    ensures MinOrder(rows).Some? && MaxOrder(rows).Some?
    ensures MinOrder(rows).value <= MaxOrder(rows).value
    ensures forall r | r in rows :: MinOrder(rows).value <= r.order <= MaxOrder(rows).value
  {
    assert rows[0] in rows;
  }

  /** The minutes of the rows in ascending order: the list a day shows. */
  function Ordered(rows: seq<Row>): seq<int> {
    Minutes(SortByOrder(rows))
  }

  /** The day's list of minutes as getSessionsByDate reads it before filtering. */
  function DayList(t: Table, user: string, date: string): seq<int> {
    Ordered(Day(t, user, date))
  }

  /** The orders of rows are dense: every order lies in 1..N, and every value
      of 1..N is the order of exactly one row, N being the number of rows. */
  predicate DenseOrders(rows: seq<Row>) {
    && (forall r | r in rows :: 1 <= r.order <= |rows|)
    && (forall o | 1 <= o <= |rows| :: |Bucket(rows, o)| == 1)
  }

  /** {1, ..., n} */
  function OneTo(n: nat): (s: set<int>)
    ensures forall o :: o in s <==> 1 <= o <= n
  {
    if n == 0 then {} else OneTo(n - 1) + {n}
  }

  predicate DistinctOrders(rows: seq<Row>) {
    forall i, j | 0 <= i < j < |rows| :: rows[i].order != rows[j].order
  }

  // ---------------------------------------------------------------------------
  // Collecting loses and adds no row

  /** The rows whose order lies in lo..hi-1, in physical order. */
  function InRange(rows: seq<Row>, lo: int, hi: int): seq<Row>
    decreases |rows|
  {
    if |rows| == 0 then []
    else (if lo <= rows[0].order < hi then [rows[0]] else []) + InRange(rows[1..], lo, hi)
  }

  /** The rows of lo..hi-1 are those of bucket lo and those of lo+1..hi-1. */
  lemma {:induction false} RangeSplit(rows: seq<Row>, lo: int, hi: int)
    requires lo < hi
    ensures multiset(InRange(rows, lo, hi)) == multiset(Bucket(rows, lo)) + multiset(InRange(rows, lo + 1, hi))
    decreases |rows|
  {
    if |rows| > 0 {
      var x := rows[0];
      var t := rows[1..];
      RangeSplit(t, lo, hi);
      var a := if lo <= x.order < hi then [x] else [];
      var b := if x.order == lo then [x] else [];
      var c := if lo + 1 <= x.order < hi then [x] else [];
      assert multiset(a) == multiset(b) + multiset(c);
      assert InRange(rows, lo, hi) == a + InRange(t, lo, hi);
      assert Bucket(rows, lo) == b + Bucket(t, lo);
      assert InRange(rows, lo + 1, hi) == c + InRange(t, lo + 1, hi);
    }
  }

  /** An empty range holds no row. */
  lemma {:induction false} RangeEmpty(rows: seq<Row>, lo: int)
    ensures InRange(rows, lo, lo) == []
    decreases |rows|
  {
    if |rows| > 0 {
      RangeEmpty(rows[1..], lo);
    }
  }

  /** A range that covers every order holds every row. */
  lemma {:induction false} RangeAll(rows: seq<Row>, lo: int, hi: int)
    requires forall r | r in rows :: lo <= r.order < hi
    ensures InRange(rows, lo, hi) == rows
    decreases |rows|
  {
    if |rows| > 0 {
      assert rows[0] in rows;
      RangeAll(rows[1..], lo, hi);
      assert rows == [rows[0]] + rows[1..];
    }
  }

  /** Collecting lo..hi-1 yields, up to order, the rows of that range. */
  lemma {:induction false} CollectRange(rows: seq<Row>, lo: int, n: nat, hi: int)
    requires hi == lo + n
    ensures multiset(Collect(rows, lo, n)) == multiset(InRange(rows, lo, hi))
    decreases n
  {
    if n == 0 {
      RangeEmpty(rows, lo);
    } else {
      CollectRange(rows, lo + 1, n - 1, hi);
      CollectRangeStep(rows, lo, n, hi);
    }
  }

  /** The inductive step of CollectRange: bucket lo is the first part of both. */
  lemma CollectRangeStep(rows: seq<Row>, lo: int, n: nat, hi: int)
    requires n > 0 && hi == lo + n
    requires multiset(Collect(rows, lo + 1, n - 1)) == multiset(InRange(rows, lo + 1, hi))
    ensures multiset(Collect(rows, lo, n)) == multiset(InRange(rows, lo, hi))
  {
    assert Collect(rows, lo, n) == Bucket(rows, lo) + Collect(rows, lo + 1, n - 1);
    RangeSplit(rows, lo, hi);
  }

  /** When every order lies in lo..lo+n-1, collecting them loses and adds no row. */
  lemma CollectEverything(rows: seq<Row>, lo: int, n: nat)
    requires forall r | r in rows :: lo <= r.order < lo + n
    ensures multiset(Collect(rows, lo, n)) == multiset(rows)
  {
    var hi := lo + n;
    CollectRange(rows, lo, n, hi);
    RangeAll(rows, lo, hi);
    SameBag(Collect(rows, lo, n), InRange(rows, lo, hi), rows);
  }

  /** A bag equal to that of b is equal to that of any sequence equal to b. */
  lemma SameBag(a: seq<Row>, b: seq<Row>, c: seq<Row>)
    requires multiset(a) == multiset(b) && b == c
    ensures multiset(a) == multiset(c)
  {
  }

  lemma {:induction false} DayConcat(a: Table, b: Table, user: string, date: string)
    ensures Day(a + b, user, date) == Day(a, user, date) + Day(b, user, date)
    decreases |a|
  {
    if |a| == 0 {
      assert a + b == b;
    } else {
      assert (a + b)[0] == a[0] && (a + b)[1..] == a[1..] + b;
      DayConcat(a[1..], b, user, date);
    }
  }

  lemma {:induction false} BucketConcat(a: seq<Row>, b: seq<Row>, o: int)
    ensures Bucket(a + b, o) == Bucket(a, o) + Bucket(b, o)
    decreases |a|
  {
    if |a| == 0 {
      assert a + b == b;
    } else {
      assert (a + b)[0] == a[0] && (a + b)[1..] == a[1..] + b;
      BucketConcat(a[1..], b, o);
    }
  }

  lemma {:induction false} MinutesConcat(a: seq<Row>, b: seq<Row>)
    ensures Minutes(a + b) == Minutes(a) + Minutes(b)
    decreases |a|
  {
    if |a| == 0 {
      assert a + b == b;
    } else {
      assert (a + b)[0] == a[0] && (a + b)[1..] == a[1..] + b;
      MinutesConcat(a[1..], b);
    }
  }

  /** ORDER BY keeps the number of rows. */
  lemma SortLength(rows: seq<Row>)
    ensures |SortByOrder(rows)| == |rows|
  {
    var s := SortByOrder(rows);
    assert |s| == |multiset(s)| == |multiset(rows)| == |rows|;
  }

  /** ORDER BY neither adds nor drops a row, so the ordered minutes are the
      day's minutes: as many, and the same values. */
  lemma OrderedMembers(rows: seq<Row>)
    ensures |Ordered(rows)| == |rows|
    ensures forall v :: v in Ordered(rows) <==> exists r | r in rows :: r.minutes == v
  {
    var s := SortByOrder(rows);
    assert |s| == |multiset(s)| == |multiset(rows)| == |rows|;
    forall v ensures v in Ordered(rows) <==> exists r | r in rows :: r.minutes == v {
      if v in Ordered(rows) {
        var i :| 0 <= i < |s| && Ordered(rows)[i] == v;
        assert s[i] in multiset(s);
      }
      if exists r | r in rows :: r.minutes == v {
        var r :| r in rows && r.minutes == v;
        assert r in multiset(rows);
        var i :| 0 <= i < |s| && s[i] == r;
        assert Ordered(rows)[i] == v;
      }
    }
  }

  /** ... and so does the list of their minutes. */
  lemma OrderedLength(rows: seq<Row>)
    ensures |Ordered(rows)| == |rows|
  {
    SortLength(rows);
  }

  // ---------------------------------------------------------------------------
  // Density

  /** Two rows sharing an order put two rows into that order's bucket. */
  lemma {:induction false} BucketHasBoth(rows: seq<Row>, i: int, j: int)
    requires 0 <= i < j < |rows| && rows[i].order == rows[j].order
    ensures |Bucket(rows, rows[i].order)| >= 2
    decreases |rows|
  {
    var o := rows[i].order;
    if i == 0 {
      assert rows[j] in rows[1..];
      assert rows[j] in Bucket(rows[1..], o);
    } else {
      BucketHasBoth(rows[1..], i - 1, j - 1);
    }
  }

  /** With distinct orders every bucket holds at most one row. */
  lemma {:induction false} BucketAtMostOne(rows: seq<Row>, o: int)
    requires DistinctOrders(rows)
    ensures |Bucket(rows, o)| <= 1
    decreases |rows|
  {
    if |rows| > 0 {
      var tail := rows[1..];
      assert DistinctOrders(tail) by {
        forall i, j | 0 <= i < j < |tail| ensures tail[i].order != tail[j].order {
          assert tail[i] == rows[i + 1] && tail[j] == rows[j + 1];
        }
      }
      BucketAtMostOne(tail, o);
      forall r | r in tail ensures r.order != rows[0].order {
        var k :| 0 <= k < |tail| && tail[k] == r;
        assert rows[k + 1] == r;
      }
      if rows[0].order == o {
        BucketEmpty(tail, o);
      }
    }
  }

  /** The density predicate says exactly what the ledger promises: the set of
      orders is {1, ..., N} and no two rows share an order. */
  lemma DenseOrdersMeaning(rows: seq<Row>)
    ensures DenseOrders(rows) <==>
      (set r | r in rows :: r.order) == OneTo(|rows|) && DistinctOrders(rows)
  {
    var orders := set r | r in rows :: r.order;
    var range := OneTo(|rows|);
    if DenseOrders(rows) {
      forall o | o in range ensures o in orders {
        var b := Bucket(rows, o);
        assert b[0] in b;
      }
      forall i, j | 0 <= i < j < |rows| ensures rows[i].order != rows[j].order {
        if rows[i].order == rows[j].order {
          BucketHasBoth(rows, i, j);
        }
      }
    }
    if orders == range && DistinctOrders(rows) {
      forall r | r in rows ensures 1 <= r.order <= |rows| {
        assert r.order in orders;
      }
      forall o | 1 <= o <= |rows| ensures |Bucket(rows, o)| == 1 {
        assert o in orders;
        var r :| r in rows && r.order == o;
        assert r in Bucket(rows, o);
        BucketAtMostOne(rows, o);
      }
    }
  }

  /** Every order in lo..hi-1 has exactly one row. */
  predicate OnePerOrder(rows: seq<Row>, lo: int, hi: int) {
    forall o | lo <= o < hi :: |Bucket(rows, o)| == 1
  }

  lemma OnePerOrderNext(rows: seq<Row>, lo: int, hi: int)
    requires OnePerOrder(rows, lo, hi) && lo < hi
    ensures |Bucket(rows, lo)| == 1 && OnePerOrder(rows, lo + 1, hi)
  {
  }

  /** With one row per order in lo..lo+n-1, collecting yields n rows. */
  lemma {:induction false} CollectLength(rows: seq<Row>, lo: int, n: nat, hi: int)
    requires hi == lo + n && OnePerOrder(rows, lo, hi)
    ensures |Collect(rows, lo, n)| == n
    decreases n
  {
    if n > 0 {
      OnePerOrderNext(rows, lo, hi);
      CollectLength(rows, lo + 1, n - 1, hi);
      CollectLengthStep(rows, lo, n);
    }
  }

  lemma CollectLengthStep(rows: seq<Row>, lo: int, n: nat)
    requires n > 0 && |Bucket(rows, lo)| == 1 && |Collect(rows, lo + 1, n - 1)| == n - 1
    ensures |Collect(rows, lo, n)| == n
  {
    assert Collect(rows, lo, n) == Bucket(rows, lo) + Collect(rows, lo + 1, n - 1);
  }

  /** The row collected at position k is the one of order o = lo + k. */
  lemma {:induction false} CollectAt(rows: seq<Row>, lo: int, n: nat, hi: int, k: int, o: int)
    requires hi == lo + n && OnePerOrder(rows, lo, hi)
    requires 0 <= k < n && o == lo + k
    ensures |Collect(rows, lo, n)| == n
    ensures Collect(rows, lo, n)[k] == Bucket(rows, o)[0]
    decreases n
  {
    CollectLength(rows, lo, n, hi);
    OnePerOrderNext(rows, lo, hi);
    if k == 0 {
      CollectHead(rows, lo, n);
    } else {
      CollectAt(rows, lo + 1, n - 1, hi, k - 1, o);
      CollectAtStep(rows, lo, n, k, o);
    }
  }

  /** The step of CollectAt: position k of the whole is position k - 1 of the
      rest. */
  lemma CollectAtStep(rows: seq<Row>, lo: int, n: nat, k: int, o: int)
    requires 0 < k < n && |Bucket(rows, lo)| == 1 && |Bucket(rows, o)| == 1
    requires |Collect(rows, lo + 1, n - 1)| == n - 1
    requires Collect(rows, lo + 1, n - 1)[k - 1] == Bucket(rows, o)[0]
    ensures Collect(rows, lo, n)[k] == Bucket(rows, o)[0]
  {
    CollectHead(rows, lo, n);
  }

  /** Collecting starts with the single row of order lo. */
  lemma CollectHead(rows: seq<Row>, lo: int, n: nat)
    requires n > 0 && |Bucket(rows, lo)| == 1
    ensures Collect(rows, lo, n) == [Bucket(rows, lo)[0]] + Collect(rows, lo + 1, n - 1)
  {
    var b := Bucket(rows, lo);
    assert b == [b[0]];
  }

  /** On a dense day the smallest order is 1 and the largest is the number of rows. */
  lemma DenseBounds(rows: seq<Row>)
    requires DenseOrders(rows) && |rows| > 0
    ensures MinOrder(rows) == Some(1) && MaxOrder(rows) == Some(|rows|)
  {
    var first := Bucket(rows, 1)[0];
    assert first in Bucket(rows, 1);
    var last := Bucket(rows, |rows|)[0];
    assert last in Bucket(rows, |rows|);
    var rl :| rl in rows && rl.order == MinOrder(rows).value;
    var rh :| rh in rows && rh.order == MaxOrder(rows).value;
  }

  /** On a dense day ORDER BY collects the orders 1..N. */
  lemma DenseSortIsCollect(rows: seq<Row>)
    requires DenseOrders(rows)
    ensures SortByOrder(rows) == Collect(rows, 1, |rows|)
  {
    if |rows| > 0 {
      DenseBounds(rows);
    }
  }

  /** On a dense day, SortByOrder places the row of order o at position o - 1. */
  lemma DenseSorted(rows: seq<Row>)
    requires DenseOrders(rows)
    ensures |SortByOrder(rows)| == |rows|
    ensures forall o | 1 <= o <= |rows| :: SortByOrder(rows)[o - 1] == Bucket(rows, o)[0]
  {
    SortLength(rows);
    forall o | 1 <= o <= |rows| ensures SortByOrder(rows)[o - 1] == Bucket(rows, o)[0] {
      DenseSortedAt(rows, o);
    }
  }

  /** The same, at one position. */
  lemma DenseSortedAt(rows: seq<Row>, o: int)
    requires DenseOrders(rows) && 1 <= o <= |rows|
    ensures |SortByOrder(rows)| == |rows|
    ensures SortByOrder(rows)[o - 1] == Bucket(rows, o)[0]
  {
    DenseSortIsCollect(rows);
    var k := o - 1;
    var hi := |rows| + 1;
    assert OnePerOrder(rows, 1, hi);
    CollectAt(rows, 1, |rows|, hi, k, o);
  }

  /** On a dense day the ordered list holds, at position o - 1, the minutes of
      the row whose order is o. */
  lemma DenseOrderedAt(rows: seq<Row>, o: int)
    requires DenseOrders(rows) && 1 <= o <= |rows|
    ensures |Ordered(rows)| == |rows|
    ensures Ordered(rows)[o - 1] == Bucket(rows, o)[0].minutes
  {
    DenseSortedAt(rows, o);
  }

  /** The same, for every position at once. */
  lemma DenseOrdered(rows: seq<Row>)
    requires DenseOrders(rows)
    ensures |Ordered(rows)| == |rows|
    ensures forall o | 1 <= o <= |rows| :: Ordered(rows)[o - 1] == Bucket(rows, o)[0].minutes
  {
    DenseSorted(rows);
    forall o | 1 <= o <= |rows| ensures Ordered(rows)[o - 1] == Bucket(rows, o)[0].minutes {
      DenseOrderedAt(rows, o);
    }
  }

  /** list holds, at position o - 1, the minutes of the row whose order is o. */
  predicate ListsOrders(rows: seq<Row>, list: seq<int>) {
    && |list| == |rows|
    && forall o | 1 <= o <= |rows| :: |Bucket(rows, o)| > 0 && list[o - 1] == Bucket(rows, o)[0].minutes
  }

  /** Such a list is the ordered list of a dense day. */
  lemma DenseOrderedIs(rows: seq<Row>, list: seq<int>)
    requires DenseOrders(rows) && ListsOrders(rows, list)
    ensures Ordered(rows) == list
  {
    OrderedLength(rows);
    forall i | 0 <= i < |rows| ensures Ordered(rows)[i] == list[i] {
      DenseOrderedIsAt(rows, list, i);
    }
    EqualByIndex(Ordered(rows), list);
  }

  /** DenseOrderedIs at one index. */
  lemma DenseOrderedIsAt(rows: seq<Row>, list: seq<int>, i: int)
    requires DenseOrders(rows) && ListsOrders(rows, list) && 0 <= i < |rows|
    ensures |Ordered(rows)| == |rows|
    ensures Ordered(rows)[i] == list[i]
  {
    DenseOrderedAt(rows, i + 1);
  }

  /** Sequences that agree at every index are equal. */
  lemma EqualByIndex<T>(a: seq<T>, b: seq<T>)
    requires |a| == |b| && forall i | 0 <= i < |a| :: a[i] == b[i]
    ensures a == b
  {
  }

  /** Rows numbered lo, lo + 1, ... fill one bucket each. */
  lemma {:induction false} ConsecutiveBuckets(rows: seq<Row>, lo: int, o: int)
    requires forall i | 0 <= i < |rows| :: rows[i].order == lo + i
    ensures Bucket(rows, o) == if lo <= o < lo + |rows| then [rows[o - lo]] else []
    decreases |rows|
  {
    if |rows| > 0 {
      ConsecutiveBuckets(rows[1..], lo + 1, o);
    }
  }

  /** The rows setSessions inserts are dense. */
  lemma NumberedIsDense(user: string, date: string, xs: seq<int>)
    ensures DenseOrders(Numbered(user, date, xs))
  {
    var rows := Numbered(user, date, xs);
    forall o | 1 <= o <= |rows| ensures |Bucket(rows, o)| == 1 {
      ConsecutiveBuckets(rows, 1, o);
    }
  }

  /** ORDER BY leaves the rows setSessions inserts as they are. */
  lemma NumberedSorted(user: string, date: string, xs: seq<int>)
    ensures SortByOrder(Numbered(user, date, xs)) == Numbered(user, date, xs)
  {
    var rows := Numbered(user, date, xs);
    SortLength(rows);
    forall i | 0 <= i < |rows| ensures SortByOrder(rows)[i] == rows[i] {
      NumberedSortedAt(user, date, xs, i);
    }
    EqualByIndex(SortByOrder(rows), rows);
  }

  /** NumberedSorted at one index. */
  lemma NumberedSortedAt(user: string, date: string, xs: seq<int>, i: int)
    requires 0 <= i < |xs|
    ensures |SortByOrder(Numbered(user, date, xs))| == |xs|
    ensures SortByOrder(Numbered(user, date, xs))[i] == Numbered(user, date, xs)[i]
  {
    var rows := Numbered(user, date, xs);
    NumberedIsDense(user, date, xs);
    DenseSortedAt(rows, i + 1);
    ConsecutiveBuckets(rows, 1, i + 1);
  }

  /** The rows setSessions inserts are dense and list xs in input order. */
  lemma NumberedDense(user: string, date: string, xs: seq<int>)
    ensures DenseOrders(Numbered(user, date, xs))
    ensures Ordered(Numbered(user, date, xs)) == xs
  {
    NumberedIsDense(user, date, xs);
    NumberedSorted(user, date, xs);
  }

  // ---------------------------------------------------------------------------
  // What each statement does to one day's rows

  lemma {:induction false} DayOfOtherDays(t: Table, user: string, date: string, u: string, d: string)
    ensures Day(OtherDays(t, user, date), u, d) == if u == user && d == date then [] else Day(t, u, d)
    decreases |t|
  {
    if |t| > 0 {
      var head := if InDay(t[0], user, date) then [] else [t[0]];
      DayConcat(head, OtherDays(t[1..], user, date), u, d);
      DayOfOtherDays(t[1..], user, date, u, d);
    }
  }

  lemma DayOfNumbered(user: string, date: string, xs: seq<int>, u: string, d: string)
    ensures Day(Numbered(user, date, xs), u, d) == if u == user && d == date then Numbered(user, date, xs) else []
  {
    var rows := Numbered(user, date, xs);
    if u == user && d == date {
      DayAll(rows, u, d);
    } else {
      DayNone(rows, u, d);
    }
  }

  /** A list none of whose rows belongs to a day has nothing on it. */
  lemma {:induction false} DayNone(rows: seq<Row>, u: string, d: string)
    requires forall r | r in rows :: !InDay(r, u, d)
    ensures Day(rows, u, d) == []
    decreases |rows|
  {
    if |rows| > 0 {
      assert rows[0] in rows;
      DayNone(rows[1..], u, d);
    }
  }

  /** A bucket no row falls into is empty. */
  lemma {:induction false} BucketEmpty(rows: seq<Row>, o: int)
    requires forall r | r in rows :: r.order != o
    ensures Bucket(rows, o) == []
    decreases |rows|
  {
    if |rows| > 0 {
      assert rows[0] in rows;
      BucketEmpty(rows[1..], o);
    }
  }

  /** A list all of whose rows belong to one day is its own projection on it. */
  lemma {:induction false} DayAll(rows: seq<Row>, u: string, d: string)
    requires forall r | r in rows :: InDay(r, u, d)
    ensures Day(rows, u, d) == rows
    decreases |rows|
  {
    if |rows| > 0 {
      assert rows[0] in rows;
      DayAll(rows[1..], u, d);
      assert rows == [rows[0]] + rows[1..];
    }
  }

  lemma {:induction false} DayOfDeleteSlot(t: Table, user: string, date: string, o: int, u: string, d: string)
    ensures Day(DeleteSlot(t, user, date, o), u, d)
         == if u == user && d == date then DeleteSlot(Day(t, u, d), user, date, o) else Day(t, u, d)
    decreases |t|
  {
    if |t| > 0 {
      var x := t[0];
      var head := if InDay(x, user, date) && x.order == o then [] else [x];
      DayConcat(head, DeleteSlot(t[1..], user, date, o), u, d);
      DayOfDeleteSlot(t[1..], user, date, o, u, d);
      if u == user && d == date {
        var dh := if InDay(x, u, d) then [x] else [];
        assert Day(t, u, d) == dh + Day(t[1..], u, d);
        DeleteSlotConcat(dh, Day(t[1..], u, d), user, date, o);
      }
    }
  }

  lemma {:induction false} DeleteSlotConcat(a: Table, b: Table, user: string, date: string, o: int)
    ensures DeleteSlot(a + b, user, date, o) == DeleteSlot(a, user, date, o) + DeleteSlot(b, user, date, o)
    decreases |a|
  {
    if |a| == 0 {
      assert a + b == b;
    } else {
      assert (a + b)[0] == a[0] && (a + b)[1..] == a[1..] + b;
      DeleteSlotConcat(a[1..], b, user, date, o);
    }
  }

  lemma ShiftDownConcat(a: Table, b: Table, user: string, date: string, o: int)
    ensures ShiftDown(a + b, user, date, o) == ShiftDown(a, user, date, o) + ShiftDown(b, user, date, o)
  {
    var l := ShiftDown(a + b, user, date, o);
    var r := ShiftDown(a, user, date, o) + ShiftDown(b, user, date, o);
    forall i | 0 <= i < |l| ensures l[i] == r[i] {
      if i < |a| {
        assert (a + b)[i] == a[i];
      } else {
        assert (a + b)[i] == b[i - |a|];
      }
    }
  }

  lemma {:induction false} DayOfShiftDown(t: Table, user: string, date: string, o: int, u: string, d: string)
    ensures Day(ShiftDown(t, user, date, o), u, d)
         == if u == user && d == date then ShiftDown(Day(t, u, d), user, date, o) else Day(t, u, d)
    decreases |t|
  {
    if |t| > 0 {
      var head, tail := [t[0]], t[1..];
      assert head + tail == t;
      ShiftDownConcat(head, tail, user, date, o);
      DayConcat(ShiftDown(head, user, date, o), ShiftDown(tail, user, date, o), u, d);
      DayOfShiftDownOne(t[0], user, date, o, u, d);
      DayOfShiftDown(tail, user, date, o, u, d);
      if u == user && d == date {
        DayConcat(head, tail, u, d);
        ShiftDownConcat(Day(head, u, d), Day(tail, u, d), user, date, o);
      }
    }
  }

  /** DayOfShiftDown for a single row. */
  lemma DayOfShiftDownOne(x: Row, user: string, date: string, o: int, u: string, d: string)
    ensures Day(ShiftDown([x], user, date, o), u, d)
         == if u == user && d == date then ShiftDown(Day([x], u, d), user, date, o) else Day([x], u, d)
  {
    var y := Lower(x, user, date, o);
    assert ShiftDown([x], user, date, o) == [y];
    assert [x][1..] == [] && [y][1..] == [];
    if InDay(x, u, d) {
      assert Day([x], u, d) == [x];
    } else {
      assert Day([x], u, d) == [];
    }
  }

  // ---------------------------------------------------------------------------
  // What the delete-and-renumber of removeSession does to the buckets of a day

  lemma {:induction false} BucketOfDeleteSlot(rows: seq<Row>, user: string, date: string, k: int, o: int)
    requires forall r | r in rows :: InDay(r, user, date)
    ensures Bucket(DeleteSlot(rows, user, date, k), o) == if o == k then [] else Bucket(rows, o)
    decreases |rows|
  {
    if |rows| > 0 {
      assert rows[0] in rows;
      var head := if rows[0].order == k then [] else [rows[0]];
      BucketConcat(head, DeleteSlot(rows[1..], user, date, k), o);
      BucketOfDeleteSlot(rows[1..], user, date, k, o);
    }
  }

  lemma {:induction false} DeleteSlotLength(rows: seq<Row>, user: string, date: string, k: int)
    requires forall r | r in rows :: InDay(r, user, date)
    ensures |DeleteSlot(rows, user, date, k)| == |rows| - |Bucket(rows, k)|
    decreases |rows|
  {
    if |rows| > 0 {
      assert rows[0] in rows;
      DeleteSlotLength(rows[1..], user, date, k);
    }
  }

  /** After the delete, the rows that land on order o are those that had order
      o (below k) or o + 1 (from k on), with the same minutes. */
  lemma {:induction false} BucketOfShiftDown(rows: seq<Row>, user: string, date: string, k: int, o: int)
    requires forall r | r in rows :: InDay(r, user, date)
    requires Bucket(rows, k) == []
    ensures Minutes(Bucket(ShiftDown(rows, user, date, k), o)) == Minutes(Bucket(rows, if o < k then o else o + 1))
    decreases |rows|
  {
    if |rows| > 0 {
      var tail := rows[1..];
      EmptyBucketTail(rows, k);
      assert forall r | r in tail :: r in rows;
      BucketOfShiftDown(tail, user, date, k, o);
      BucketOfShiftDownStep(rows, user, date, k, o);
    }
  }

  /** A bucket that is empty stays empty without the first row, which is not in it. */
  lemma EmptyBucketTail(rows: seq<Row>, k: int)
    requires |rows| > 0 && Bucket(rows, k) == []
    ensures rows[0].order != k && Bucket(rows[1..], k) == []
  {
    BucketCons(rows, k);
  }

  /** The inductive step of BucketOfShiftDown: the first row lands on o exactly
      when it came from the source bucket. */
  lemma BucketOfShiftDownStep(rows: seq<Row>, user: string, date: string, k: int, o: int)
    requires |rows| > 0 && InDay(rows[0], user, date) && rows[0].order != k
    requires Minutes(Bucket(ShiftDown(rows[1..], user, date, k), o))
          == Minutes(Bucket(rows[1..], if o < k then o else o + 1))
    ensures Minutes(Bucket(ShiftDown(rows, user, date, k), o)) == Minutes(Bucket(rows, if o < k then o else o + 1))
  {
    var x := rows[0];
    var src := if o < k then o else o + 1;
    var s := ShiftDown(rows, user, date, k);
    ShiftDownCons(rows, user, date, k);
    LowerLands(x, user, date, k, o, src);
    var y := Lower(x, user, date, k);
    var hs := if y.order == o then [y] else [];
    var hr := if x.order == src then [x] else [];
    BucketCons(s, o);
    BucketCons(rows, src);
    MinutesConcat(hs, Bucket(s[1..], o));
    MinutesConcat(hr, Bucket(rows[1..], src));
    assert Minutes(hs) == Minutes(hr);
  }

  /** The renumbering acts on the first row and then on the rest. */
  lemma ShiftDownCons(rows: seq<Row>, user: string, date: string, k: int)
    requires |rows| > 0
    ensures var s := ShiftDown(rows, user, date, k);
      |s| > 0 && s[0] == Lower(rows[0], user, date, k) && s[1..] == ShiftDown(rows[1..], user, date, k)
  {
  }

  /** A row of the day other than order k lands on o exactly when it came from
      o (below k) or o + 1 (from k on), and keeps its minutes. */
  lemma LowerLands(x: Row, user: string, date: string, k: int, o: int, src: int)
    requires InDay(x, user, date) && x.order != k && src == if o < k then o else o + 1
    ensures (Lower(x, user, date, k).order == o) <==> (x.order == src)
    ensures Lower(x, user, date, k).minutes == x.minutes
  {
  }

  /** The bucket of a non-empty sequence: the first row when it has order o, then
      the bucket of the rest. */
  lemma BucketCons(rows: seq<Row>, o: int)
    requires |rows| > 0
    ensures Bucket(rows, o) == (if rows[0].order == o then [rows[0]] else []) + Bucket(rows[1..], o)
  {
  }

  /** A statement whose WHERE clause selects no row leaves the relation as it is. */
  lemma {:induction false} DeleteSlotNoMatch(t: Table, user: string, date: string, o: int)
    requires forall r | r in t :: !(InDay(r, user, date) && r.order == o)
    ensures DeleteSlot(t, user, date, o) == t
    decreases |t|
  {
    if |t| > 0 {
      assert t[0] in t;
      DeleteSlotNoMatch(t[1..], user, date, o);
      assert t == [t[0]] + t[1..];
    }
  }

  lemma ShiftDownNoMatch(t: Table, user: string, date: string, o: int)
    requires forall r | r in t :: !(InDay(r, user, date) && r.order > o)
    ensures ShiftDown(t, user, date, o) == t
  {
    forall i | 0 <= i < |t| ensures ShiftDown(t, user, date, o)[i] == t[i] {
      assert t[i] in t;
    }
  }
}
