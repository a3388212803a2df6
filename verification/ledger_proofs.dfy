/** What the server actions promise about the ledger as a whole: every day keeps
    its orders dense (exactly 1..N), no action touches another user's or another
    day's rows, and the list getSessionsByDate shows behaves like a plain list
    under append (addSession), remove-at (removeSession) and replace
    (setSessions). */
module LedgerProofs {
  import opened Wrappers
  import opened MinuteLists
  import opened SessionTable
  import opened SessionActions
  import opened DateKey

  /** The ledger invariant: the orders of every (user, date) pair are dense, and
      every stored minute value is positive. */
  ghost predicate Inv(t: Table) {
    && (forall u, d :: DenseOrders(Day(t, u, d)))
    && (forall x | x in t :: x.minutes > 0)
  }

  /** The empty relation satisfies the invariant. */
  lemma EmptyInv()
    ensures Inv([])
  {
    forall u, d ensures DenseOrders(Day([], u, d)) {
      assert Day([], u, d) == [];
    }
  }

  /** No other (user, date) pair: the rows a statement for (user, date) must not touch. */
  predicate Other(u: string, d: string, user: string, date: string) {
    !(u == user && d == date)
  }

  // ---------------------------------------------------------------------------
  // addSession

  /** A row numbered N + 1 appended to a dense day of N rows fills bucket N + 1
      and leaves the others as they were. */
  lemma AppendBucket(day: seq<Row>, x: Row, o: int)
    requires DenseOrders(day) && x.order == |day| + 1
    requires 1 <= o <= |day| + 1
    ensures Bucket(day + [x], o) == if o <= |day| then Bucket(day, o) else [x]
  {
    BucketConcat(day, [x], o);
    if o > |day| {
      BucketEmpty(day, o);
    }
  }

  /** ... so the day stays dense ... */
  lemma AppendDenseOrders(day: seq<Row>, x: Row)
    requires DenseOrders(day) && x.order == |day| + 1
    ensures DenseOrders(day + [x])
  {
    var day' := day + [x];
    forall r | r in day' ensures 1 <= r.order <= |day'| {
      assert r in day || r == x;
    }
    forall o | 1 <= o <= |day'| ensures |Bucket(day', o)| == 1 {
      AppendBucket(day, x, o);
    }
  }

  /** ... and its ordered list gains the new minutes at the end. */
  lemma AppendDense(day: seq<Row>, x: Row)
    requires DenseOrders(day) && x.order == |day| + 1
    ensures DenseOrders(day + [x])
    ensures Ordered(day + [x]) == Ordered(day) + [x.minutes]
  {
    var day' := day + [x];
    var list := Ordered(day) + [x.minutes];
    AppendDenseOrders(day, x);
    DenseOrdered(day);
    forall o | 1 <= o <= |day'| ensures |Bucket(day', o)| > 0 && list[o - 1] == Bucket(day', o)[0].minutes {
      AppendBucket(day, x, o);
    }
    DenseOrderedIs(day', list);
  }

  /** The day of a one-row relation. */
  lemma DayOfOne(x: Row, u: string, d: string)
    ensures Day([x], u, d) == if InDay(x, u, d) then [x] else []
  {
    assert [x][1..] == [];
  }

  /** On a dense day MAX + 1 is N + 1. */
  lemma NextOrderDense(day: seq<Row>)
    requires DenseOrders(day)
    ensures NextOrder(day) == |day| + 1
  {
    if |day| > 0 {
      DenseBounds(day);
    }
  }

  /** addSession changes no other (user, date) pair. */
  lemma AddSessionFrame(t: Table, user: Option<string>, dateKey: string, minutes: int, storeFails: bool, u: string, d: string)
    requires AddSession(t, user, dateKey, minutes, storeFails).Ok?
    requires Other(u, d, user.value, dateKey)
    ensures Day(AddSession(t, user, dateKey, minutes, storeFails).value, u, d) == Day(t, u, d)
  {
    var t' := AddSession(t, user, dateKey, minutes, storeFails).value;
    assert t' == t[..|t|] + [t'[|t|]];
    assert t[..|t|] == t;
    DayConcat(t, [t'[|t|]], u, d);
    DayOfOne(t'[|t|], u, d);
  }

  /** addSession on a valid ledger keeps it valid, grows the day by one row,
      and appends the minutes to the day's list. */
  lemma AddSessionRefines(t: Table, user: Option<string>, dateKey: string, minutes: int, storeFails: bool)
    requires Inv(t)
    requires AddSession(t, user, dateKey, minutes, storeFails).Ok?
    ensures Inv(AddSession(t, user, dateKey, minutes, storeFails).value)
    ensures |Day(AddSession(t, user, dateKey, minutes, storeFails).value, user.value, dateKey)|
         == |Day(t, user.value, dateKey)| + 1
    ensures DayList(AddSession(t, user, dateKey, minutes, storeFails).value, user.value, dateKey)
         == DayList(t, user.value, dateKey) + [minutes]
  {
    var t' := AddSession(t, user, dateKey, minutes, storeFails).value;
    var x := t'[|t|];
    assert t' == t + [x] by {
      assert t' == t'[..|t|] + [x];
    }
    var day := Day(t, user.value, dateKey);
    NextOrderDense(day);
    forall u, d ensures DenseOrders(Day(t', u, d)) {
      if Other(u, d, user.value, dateKey) {
        AddSessionFrame(t, user, dateKey, minutes, storeFails, u, d);
      } else {
        DayConcat(t, [x], u, d);
        DayOfOne(x, u, d);
        AppendDense(day, x);
      }
    }
    forall y | y in t' ensures y.minutes > 0 {
      assert y in t || y == x;
    }
    DayConcat(t, [x], user.value, dateKey);
    DayOfOne(x, user.value, dateKey);
    AppendDense(day, x);
  }

  // ---------------------------------------------------------------------------
  // removeSession

  /** The day after the delete: the row of order k is gone and the other
      buckets are as they were. */
  lemma DeleteFromDenseDay(day: seq<Row>, u: string, d: string, k: int)
    requires forall r | r in day :: InDay(r, u, d)
    requires DenseOrders(day) && 1 <= k <= |day|
    ensures var rest := DeleteSlot(day, u, d, k);
      && |rest| == |day| - 1
      && (forall r | r in rest :: InDay(r, u, d) && 1 <= r.order <= |day| && r.order != k)
      && (forall o :: Bucket(rest, o) == if o == k then [] else Bucket(day, o))
  {
    var rest := DeleteSlot(day, u, d, k);
    DeleteSlotLength(day, u, d, k);
    forall o ensures Bucket(rest, o) == if o == k then [] else Bucket(day, o) {
      BucketOfDeleteSlot(day, u, d, k, o);
    }
  }

  /** Lowering the later orders after the delete leaves every order within 1..N - 1. */
  lemma ShiftedOrders(rest: seq<Row>, u: string, d: string, k: int, n: nat)
    requires forall r | r in rest :: InDay(r, u, d) && 1 <= r.order <= n && r.order != k
    requires 1 <= k <= n
    ensures forall r | r in ShiftDown(rest, u, d, k) :: 1 <= r.order <= n - 1
  {
    var s := ShiftDown(rest, u, d, k);
    forall r | r in s ensures 1 <= r.order <= n - 1 {
      var i :| 0 <= i < |s| && s[i] == r;
      assert rest[i] in rest;
    }
  }

  /** Deleting order k from a dense day and lowering the later orders leaves a
      dense day whose bucket o holds what bucket o (below k) or o + 1 (from k
      on) held before. */
  lemma RemoveDenseBuckets(day: seq<Row>, u: string, d: string, k: int, o: int)
    requires forall r | r in day :: InDay(r, u, d)
    requires DenseOrders(day) && 1 <= k <= |day|
    requires 1 <= o <= |day| - 1
    ensures var after := ShiftDown(DeleteSlot(day, u, d, k), u, d, k);
      var src := if o < k then o else o + 1;
      && |Bucket(after, o)| == 1
      && Bucket(after, o)[0].minutes == Bucket(day, src)[0].minutes
  {
    var rest := DeleteSlot(day, u, d, k);
    var after := ShiftDown(rest, u, d, k);
    var src := if o < k then o else o + 1;
    DeleteFromDenseDay(day, u, d, k);
    BucketOfShiftDown(rest, u, d, k, o);
    assert Minutes(Bucket(after, o)) == Minutes(Bucket(day, src));
    assert |Bucket(after, o)| == |Minutes(Bucket(after, o))|;
    assert Minutes(Bucket(after, o))[0] == Bucket(after, o)[0].minutes;
  }

  /** The day-level statement of removeSession for an order inside the day:
      the day stays dense ... */
  lemma RemoveDenseOrders(day: seq<Row>, u: string, d: string, k: int)
    requires forall r | r in day :: InDay(r, u, d)
    requires DenseOrders(day) && 1 <= k <= |day|
    ensures |ShiftDown(DeleteSlot(day, u, d, k), u, d, k)| == |day| - 1
    ensures DenseOrders(ShiftDown(DeleteSlot(day, u, d, k), u, d, k))
  {
    var rest := DeleteSlot(day, u, d, k);
    var after := ShiftDown(rest, u, d, k);
    DeleteFromDenseDay(day, u, d, k);
    ShiftedOrders(rest, u, d, k, |day|);
    forall o | 1 <= o <= |after| ensures |Bucket(after, o)| == 1 {
      RemoveDenseBuckets(day, u, d, k, o);
    }
  }

  /** Position o - 1 of a list without its entry k - 1. */
  lemma SpliceAt(l: seq<int>, k: int, o: int, src: int)
    requires 1 <= k <= |l| && 1 <= o <= |l| - 1
    requires src == if o < k then o else o + 1
    ensures (l[..k - 1] + l[k..])[o - 1] == l[src - 1]
  {
  }

  /** Entry o - 1 of the list after the removal is entry o - 1 (below k) or o
      (from k on) of the list before it. */
  lemma RemoveEntry(day: seq<Row>, u: string, d: string, k: int, o: int)
    requires forall r | r in day :: InDay(r, u, d)
    requires DenseOrders(day) && 1 <= k <= |day|
    requires 1 <= o <= |day| - 1
    ensures |Ordered(day)| == |day|
    ensures |Bucket(ShiftDown(DeleteSlot(day, u, d, k), u, d, k), o)| == 1
    ensures (Ordered(day)[..k - 1] + Ordered(day)[k..])[o - 1]
         == Bucket(ShiftDown(DeleteSlot(day, u, d, k), u, d, k), o)[0].minutes
  {
    var src := if o < k then o else o + 1;
    RemoveDenseBuckets(day, u, d, k, o);
    DenseOrderedAt(day, src);
    SpliceAt(Ordered(day), k, o, src);
  }

  /** ... and loses exactly the entry at position k - 1 of its ordered list. */
  lemma RemoveDense(day: seq<Row>, u: string, d: string, k: int)
    requires forall r | r in day :: InDay(r, u, d)
    requires DenseOrders(day) && 1 <= k <= |day|
    ensures |Ordered(day)| == |day|
    ensures DenseOrders(ShiftDown(DeleteSlot(day, u, d, k), u, d, k))
    ensures Ordered(ShiftDown(DeleteSlot(day, u, d, k), u, d, k)) == Ordered(day)[..k - 1] + Ordered(day)[k..]
  {
    var after := ShiftDown(DeleteSlot(day, u, d, k), u, d, k);
    RemoveDenseOrders(day, u, d, k);
    OrderedMembers(day);
    var list := Ordered(day)[..k - 1] + Ordered(day)[k..];
    forall o | 1 <= o <= |after| ensures |Bucket(after, o)| > 0 && list[o - 1] == Bucket(after, o)[0].minutes {
      RemoveEntry(day, u, d, k, o);
    }
    DenseOrderedIs(after, list);
  }

  /** The rows removeSession keeps, the lowered ones included, carry the minutes
      they had. */
  lemma ShiftDeleteMinutes(t: Table, u: string, d: string, k: int)
    ensures forall x | x in ShiftDown(DeleteSlot(t, u, d, k), u, d, k) ::
      exists y | y in t :: y.minutes == x.minutes
  {
    var rest := DeleteSlot(t, u, d, k);
    var after := ShiftDown(rest, u, d, k);
    forall x | x in after ensures exists y | y in t :: y.minutes == x.minutes {
      var i :| 0 <= i < |after| && after[i] == x;
      assert rest[i] in rest;
    }
  }

  /** removeSession changes no other (user, date) pair. */
  lemma RemoveSessionFrame(t: Table, user: Option<string>, dateKey: string, index: int, storeFails: bool, u: string, d: string)
    requires RemoveSession(t, user, dateKey, index, storeFails).Ok?
    requires Other(u, d, user.value, dateKey)
    ensures Day(RemoveSession(t, user, dateKey, index, storeFails).value, u, d) == Day(t, u, d)
  {
    var k := index + 1;
    DayOfShiftDown(DeleteSlot(t, user.value, dateKey, k), user.value, dateKey, k, u, d);
    DayOfDeleteSlot(t, user.value, dateKey, k, u, d);
  }

  /** The day removeSession works on, after it: the delete and the renumbering
      applied to that day alone. */
  lemma RemoveSessionDay(t: Table, user: Option<string>, dateKey: string, index: int, storeFails: bool)
    requires RemoveSession(t, user, dateKey, index, storeFails).Ok?
    ensures var u, k := user.value, index + 1;
      Day(RemoveSession(t, user, dateKey, index, storeFails).value, u, dateKey)
      == ShiftDown(DeleteSlot(Day(t, u, dateKey), u, dateKey, k), u, dateKey, k)
  {
    var u, k := user.value, index + 1;
    DayOfShiftDown(DeleteSlot(t, u, dateKey, k), u, dateKey, k, u, dateKey);
    DayOfDeleteSlot(t, u, dateKey, k, u, dateKey);
  }

  /** removeSession with 0 <= index < N on a valid ledger keeps it valid and
      removes exactly entry index of the day's list. */
  lemma RemoveSessionRefines(t: Table, user: Option<string>, dateKey: string, index: int, storeFails: bool)
    requires Inv(t)
    requires RemoveSession(t, user, dateKey, index, storeFails).Ok?
    requires index < |DayList(t, user.value, dateKey)|
    ensures Inv(RemoveSession(t, user, dateKey, index, storeFails).value)
    ensures DayList(RemoveSession(t, user, dateKey, index, storeFails).value, user.value, dateKey)
         == DayList(t, user.value, dateKey)[..index] + DayList(t, user.value, dateKey)[index + 1..]
  {
    var t' := RemoveSession(t, user, dateKey, index, storeFails).value;
    var u, k := user.value, index + 1;
    var day := Day(t, u, dateKey);
    OrderedMembers(day);
    RemoveSessionDay(t, user, dateKey, index, storeFails);
    RemoveDense(day, u, dateKey, k);
    forall u', d' ensures DenseOrders(Day(t', u', d')) {
      if Other(u', d', u, dateKey) {
        RemoveSessionFrame(t, user, dateKey, index, storeFails, u', d');
      }
    }
    ShiftDeleteMinutes(t, u, dateKey, k);
  }

  /** removeSession with an index at or past the end of the day is a silent no-op. */
  lemma RemoveSessionOutOfRange(t: Table, user: Option<string>, dateKey: string, index: int, storeFails: bool)
    requires Inv(t)
    requires RemoveSession(t, user, dateKey, index, storeFails).Ok?
    requires index >= |Day(t, user.value, dateKey)|
    ensures RemoveSession(t, user, dateKey, index, storeFails).value == t
  {
    var u, k := user.value, index + 1;
    var day := Day(t, u, dateKey);
    forall r | r in t && InDay(r, u, dateKey) ensures r.order < k {
      assert r in day;
    }
    DeleteSlotNoMatch(t, u, dateKey, k);
    ShiftDownNoMatch(t, u, dateKey, k);
  }

  // ---------------------------------------------------------------------------
  // setSessions

  /** setSessions changes no other (user, date) pair. */
  lemma SetSessionsFrame(t: Table, user: Option<string>, dateKey: string, xs: seq<int>, storeFails: bool, u: string, d: string)
    requires SetSessions(t, user, dateKey, xs, storeFails).Ok?
    requires Other(u, d, user.value, dateKey)
    ensures Day(SetSessions(t, user, dateKey, xs, storeFails).value, u, d) == Day(t, u, d)
  {
    var inserted := Numbered(user.value, dateKey, Positive(xs));
    DayConcat(OtherDays(t, user.value, dateKey), inserted, u, d);
    DayOfOtherDays(t, user.value, dateKey, u, d);
    DayOfNumbered(user.value, dateKey, Positive(xs), u, d);
  }

  /** After setSessions the day is exactly the rows of its INSERT loop. */
  lemma SetSessionsDay(t: Table, user: Option<string>, dateKey: string, xs: seq<int>, storeFails: bool)
    requires SetSessions(t, user, dateKey, xs, storeFails).Ok?
    ensures Day(SetSessions(t, user, dateKey, xs, storeFails).value, user.value, dateKey)
         == Numbered(user.value, dateKey, Positive(xs))
  {
    var u := user.value;
    var inserted := Numbered(u, dateKey, Positive(xs));
    DayConcat(OtherDays(t, u, dateKey), inserted, u, dateKey);
    DayOfOtherDays(t, u, dateKey, u, dateKey);
    DayOfNumbered(u, dateKey, Positive(xs), u, dateKey);
  }

  /** Whatever the day held before, setSessions leaves it dense with the
      positive entries of the input as its list; an input without positive
      entries empties the day. */
  lemma SetSessionsRefines(t: Table, user: Option<string>, dateKey: string, xs: seq<int>, storeFails: bool)
    requires SetSessions(t, user, dateKey, xs, storeFails).Ok?
    ensures DenseOrders(Day(SetSessions(t, user, dateKey, xs, storeFails).value, user.value, dateKey))
    ensures |Day(SetSessions(t, user, dateKey, xs, storeFails).value, user.value, dateKey)| == |Positive(xs)|
    ensures DayList(SetSessions(t, user, dateKey, xs, storeFails).value, user.value, dateKey) == Positive(xs)
  {
    SetSessionsDay(t, user, dateKey, xs, storeFails);
    NumberedDense(user.value, dateKey, Positive(xs));
  }

  /** setSessions keeps a valid ledger valid. */
  lemma SetSessionsInv(t: Table, user: Option<string>, dateKey: string, xs: seq<int>, storeFails: bool)
    requires Inv(t)
    requires SetSessions(t, user, dateKey, xs, storeFails).Ok?
    ensures Inv(SetSessions(t, user, dateKey, xs, storeFails).value)
  {
    var t' := SetSessions(t, user, dateKey, xs, storeFails).value;
    forall u, d ensures DenseOrders(Day(t', u, d)) {
      if Other(u, d, user.value, dateKey) {
        SetSessionsFrame(t, user, dateKey, xs, storeFails, u, d);
      } else {
        SetSessionsRefines(t, user, dateKey, xs, storeFails);
      }
    }
  }

  // ---------------------------------------------------------------------------
  // getSessionsByDate

  /** On a valid ledger getSessionsByDate drops nothing: it returns the day's list. */
  lemma GetSessionsByDateIsDayList(t: Table, user: Option<string>, dateKey: string)
    requires Inv(t)
    requires Authed(user) && IsValidDateKey(dateKey)
    ensures GetSessionsByDate(t, user, dateKey) == Ok(DayList(t, user.value, dateKey))
  {
    var u := user.value;
    var day := Day(t, u, dateKey);
    var l := DayList(t, u, dateKey);
    OrderedMembers(day);
    assert AllPositive(l) by {
      forall i | 0 <= i < |l| ensures l[i] > 0 {
        assert l[i] in l;
      }
    }
    PositiveIdentity(l);
  }

  /** On a valid ledger a day's list has one entry per row of the day, and the
      row whose order is o sits at position o - 1. */
  lemma DayListEntries(t: Table, u: string, d: string)
    requires Inv(t)
    ensures |DayList(t, u, d)| == |Day(t, u, d)|
    ensures forall x | x in t && InDay(x, u, d) ::
      1 <= x.order <= |DayList(t, u, d)| && DayList(t, u, d)[x.order - 1] == x.minutes
  {
    OrderedLength(Day(t, u, d));
    forall x | x in t && InDay(x, u, d)
      ensures 1 <= x.order <= |DayList(t, u, d)| && DayList(t, u, d)[x.order - 1] == x.minutes
    {
      DayListEntry(t, u, d, x);
    }
  }

  /** DayListEntries for one row. */
  lemma DayListEntry(t: Table, u: string, d: string, x: Row)
    requires Inv(t) && x in t && InDay(x, u, d)
    ensures 1 <= x.order <= |DayList(t, u, d)| && DayList(t, u, d)[x.order - 1] == x.minutes
  {
    var day := Day(t, u, d);
    assert DenseOrders(day) && x in day;
    var o := x.order;
    assert x in Bucket(day, o);
    DenseOrderedAt(day, o);
    OnlyRow(Bucket(day, o), x);
  }

  /** The one element of a singleton sequence is any member of it. */
  lemma OnlyRow(b: seq<Row>, x: Row)
    requires |b| == 1 && x in b
    ensures b[0] == x
  {
  }

  // ---------------------------------------------------------------------------
  // getOverallAverage

  /** The average lies between the smallest and the largest value the user logged. */
  lemma AverageBounds(t: Table, user: Option<string>, lo: int, hi: int)
    requires Authed(user) && |UserRows(t, user.value)| > 0
    requires forall x | x in t && x.user == user.value :: lo <= x.minutes <= hi
    ensures lo as real <= GetOverallAverage(t, user).value <= hi as real
  {
    var rows := UserRows(t, user.value);
    var ms := Minutes(rows);
    var n := |rows|;
    assert |ms| == n;
    UserMinutesBounds(t, user.value, lo, hi);
    SumBounds(ms, lo, hi);
    AverageBetween(t, user, lo, hi);
  }

  /** The average lies between lo and hi when the total lies between lo and hi
      times the count. */
  lemma AverageBetween(t: Table, user: Option<string>, lo: int, hi: int)
    requires Authed(user) && |UserRows(t, user.value)| > 0
    requires lo * |UserRows(t, user.value)| <= Sum(Minutes(UserRows(t, user.value))) <= hi * |UserRows(t, user.value)|
    ensures lo as real <= GetOverallAverage(t, user).value <= hi as real
  {
    QuotientBounds(GetOverallAverage(t, user).value, |UserRows(t, user.value)|, Sum(Minutes(UserRows(t, user.value))), lo, hi);
  }

  lemma UserMinutesBounds(t: Table, u: string, lo: int, hi: int)
    requires forall x | x in t && x.user == u :: lo <= x.minutes <= hi
    ensures forall i | 0 <= i < |Minutes(UserRows(t, u))| :: lo <= Minutes(UserRows(t, u))[i] <= hi
  {
    var rows := UserRows(t, u);
    forall i | 0 <= i < |rows| ensures lo <= Minutes(rows)[i] <= hi {
      assert rows[i] in rows;
    }
  }

  /** s / n with lo * n <= s <= hi * n and n > 0 lies between lo and hi. */
  lemma QuotientBounds(a: real, n: int, s: int, lo: int, hi: int)
    requires n > 0 && a == s as real / n as real && lo * n <= s <= hi * n
    ensures lo as real <= a <= hi as real
  {
    var nr := n as real;
    assert a * nr == s as real;
    assert (lo * n) as real == (lo as real) * nr;
    assert (hi * n) as real == (hi as real) * nr;
    assert (a - lo as real) * nr >= 0.0 && (hi as real - a) * nr >= 0.0;
  }

  /** Three sessions of 10, 20 and 30 minutes average 20. */
  lemma AverageExample(t: Table, u: string)
    requires u == "u1"
    requires t == [Row(u, "2024-01-01", 1, 10), Row(u, "2024-01-01", 2, 20), Row(u, "2024-01-02", 1, 30)]
    ensures GetOverallAverage(t, Some(u)) == Ok(20.0)
  {
    ExampleRows(t, u);
    ExampleSum();
  }

  lemma ExampleRows(t: Table, u: string)
    requires t == [Row(u, "2024-01-01", 1, 10), Row(u, "2024-01-01", 2, 20), Row(u, "2024-01-02", 1, 30)]
    ensures UserRows(t, u) == t && Minutes(t) == [10, 20, 30]
  {
    assert UserRows(t[2..], u) == t[2..];
    assert UserRows(t[1..], u) == t[1..];
  }

  lemma ExampleSum()
    ensures Sum([10, 20, 30]) == 60
  {
    assert [10, 20, 30][..2] == [10, 20] && [10, 20][..1] == [10] && [10][..0] == [];
  }
}
