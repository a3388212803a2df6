/** The server actions of src/app/actions/saunaSessions.ts as transitions of the
    sauna_sessions relation. Each action is one atomic step: it either returns
    the new relation or an error and no relation, which is how BEGIN ... ROLLBACK
    leaves the stored rows as they were. The signed-in user is a parameter
    (None when there is no session), and a failure of the database inside a
    transaction is the flag storeFails. */
module SessionActions {
  import opened Wrappers
  import opened Text
  import opened MinuteLists
  import opened SessionTable
  import opened DateKey

  /** The messages the actions throw: "Unauthorized", "Invalid date",
      "Invalid minutes", "Invalid index", and whatever the database throws. */
  datatype Error = Unauthorized | InvalidDate | InvalidMinutes | InvalidIndex | StoreFailure

  /** assertAuthed: a missing or empty user id is refused. */
  predicate Authed(user: Option<string>) {
    user.Some? && user.value != ""
  }

  /** COALESCE(MAX(session_order), 0) + 1 over the day's rows: one past the
      largest order, 1 on an empty day. */
  function NextOrder(day: seq<Row>): (n: int)
    ensures |day| == 0 ==> n == 1
    ensures forall r | r in day :: r.order < n
    ensures |day| > 0 ==> exists r | r in day :: r.order == n - 1
  {
    match MaxOrder(day)
    case None => 1
    case Some(m) => m + 1
  }

  /** addSession(dateKey, minutes): one new row at the end of the day. */
  function AddSession(t: Table, user: Option<string>, dateKey: string, minutes: int, storeFails: bool)
    : (r: Result<Table, Error>)
    ensures !Authed(user) ==> r == Err(Unauthorized)
    ensures Authed(user) && !IsValidDateKey(dateKey) ==> r == Err(InvalidDate)
    ensures Authed(user) && IsValidDateKey(dateKey) && minutes <= 0 ==> r == Err(InvalidMinutes)
    ensures r.Ok? <==> Authed(user) && IsValidDateKey(dateKey) && minutes > 0 && !storeFails
    ensures r.Err? && Authed(user) && IsValidDateKey(dateKey) && minutes > 0 ==> r.error == StoreFailure
    ensures r.Ok? ==>
      && |r.value| == |t| + 1
      && r.value[..|t|] == t
      && r.value[|t|].user == user.value
      && r.value[|t|].date == dateKey
      && r.value[|t|].minutes == minutes
      && r.value[|t|].order == NextOrder(Day(t, user.value, dateKey))
  {
    if !Authed(user) then Err(Unauthorized)
    else if !IsValidDateKey(dateKey) then Err(InvalidDate)
    else if minutes <= 0 then Err(InvalidMinutes)
    else if storeFails then Err(StoreFailure)
    else
      var u := user.value;
      Ok(t + [Row(u, dateKey, NextOrder(Day(t, u, dateKey)), minutes)])
  }

  /** removeSession(dateKey, index): delete the row of order index + 1, then
      lower every later order of the day by one. */
  function RemoveSession(t: Table, user: Option<string>, dateKey: string, index: int, storeFails: bool)
    : (r: Result<Table, Error>)
    ensures !Authed(user) ==> r == Err(Unauthorized)
    ensures Authed(user) && !IsValidDateKey(dateKey) ==> r == Err(InvalidDate)
    ensures Authed(user) && IsValidDateKey(dateKey) && index < 0 ==> r == Err(InvalidIndex)
    ensures r.Ok? <==> Authed(user) && IsValidDateKey(dateKey) && index >= 0 && !storeFails
    ensures r.Err? && Authed(user) && IsValidDateKey(dateKey) && index >= 0 ==> r.error == StoreFailure
    ensures r.Ok? ==> |r.value| <= |t|
    ensures r.Ok? ==> forall x | x in r.value :: !InDay(x, user.value, dateKey) ==> x in t
    ensures r.Ok? ==> forall x | x in t :: !InDay(x, user.value, dateKey) ==> x in r.value
  {
    if !Authed(user) then Err(Unauthorized)
    else if !IsValidDateKey(dateKey) then Err(InvalidDate)
    else
      var order := index + 1;
      if order <= 0 then Err(InvalidIndex)
      else if storeFails then Err(StoreFailure)
      else
        var u := user.value;
        var deleted := DeleteSlot(t, u, dateKey, order);
        var shifted := ShiftDown(deleted, u, dateKey, order);
        DeleteSlotShrinks(t, u, dateKey, order);
        assert forall x | x in shifted :: !InDay(x, u, dateKey) ==> x in t by {
          forall x | x in shifted && !InDay(x, u, dateKey) ensures x in t {
            var i :| 0 <= i < |shifted| && shifted[i] == x;
            assert Lower(deleted[i], u, dateKey, order) == x;
            assert deleted[i] in deleted;
          }
        }
        assert forall x | x in t :: !InDay(x, u, dateKey) ==> x in shifted by {
          forall x | x in t && !InDay(x, u, dateKey) ensures x in shifted {
            assert x in deleted;
            var i :| 0 <= i < |deleted| && deleted[i] == x;
            assert shifted[i] == x;
          }
        }
        Ok(shifted)
  }

  /** DeleteSlot never makes the relation longer. */
  lemma {:induction false} DeleteSlotShrinks(t: Table, user: string, date: string, o: int)
    ensures |DeleteSlot(t, user, date, o)| <= |t|
    decreases |t|
  {
    if |t| > 0 {
      DeleteSlotShrinks(t[1..], user, date, o);
    }
  }

  /** setSessions(dateKey, minutesArray): the day is replaced by the positive
      entries, numbered 1, 2, ... in input order. */
  function SetSessions(t: Table, user: Option<string>, dateKey: string, xs: seq<int>, storeFails: bool)
    : (r: Result<Table, Error>)
    ensures !Authed(user) ==> r == Err(Unauthorized)
    ensures Authed(user) && !IsValidDateKey(dateKey) ==> r == Err(InvalidDate)
    ensures r.Ok? <==> Authed(user) && IsValidDateKey(dateKey) && !storeFails
    ensures r.Err? && Authed(user) && IsValidDateKey(dateKey) ==> r.error == StoreFailure
    ensures r.Ok? ==> forall x | x in r.value ::
      if InDay(x, user.value, dateKey) then x.minutes > 0 && x.minutes in xs && 1 <= x.order <= |xs|
      else x in t
  {
    if !Authed(user) then Err(Unauthorized)
    else if !IsValidDateKey(dateKey) then Err(InvalidDate)
    else if storeFails then Err(StoreFailure)
    else
      var u := user.value;
      var cleaned := Positive(xs);
      var inserted := Numbered(u, dateKey, cleaned);
      assert forall x | x in inserted :: InDay(x, u, dateKey) && x.minutes in cleaned && 1 <= x.order <= |cleaned| by {
        forall x | x in inserted ensures InDay(x, u, dateKey) && x.minutes in cleaned && 1 <= x.order <= |cleaned| {
          var i :| 0 <= i < |inserted| && inserted[i] == x;
          assert x.minutes == cleaned[i];
        }
      }
      Ok(OtherDays(t, u, dateKey) + inserted)
  }

  /** getSessionsByDate(dateKey): the day's minutes by ascending order, the
      non-positive ones dropped. */
  function GetSessionsByDate(t: Table, user: Option<string>, dateKey: string): (r: Result<seq<int>, Error>)
    ensures !Authed(user) ==> r == Err(Unauthorized)
    ensures Authed(user) && !IsValidDateKey(dateKey) ==> r == Err(InvalidDate)
    ensures r.Ok? <==> Authed(user) && IsValidDateKey(dateKey)
    ensures r.Ok? ==> AllPositive(r.value) && |r.value| <= |Day(t, user.value, dateKey)|
    ensures r.Ok? ==> forall v :: v in r.value <==>
      v > 0 && exists x | x in t :: InDay(x, user.value, dateKey) && x.minutes == v
  {
    if !Authed(user) then Err(Unauthorized)
    else if !IsValidDateKey(dateKey) then Err(InvalidDate)
    else
      var day := Day(t, user.value, dateKey);
      OrderedMembers(day);
      Ok(Positive(Ordered(day)))
  }

  /** SELECT COUNT(*), COALESCE(SUM(minutes), 0) ... WHERE user_id = user, and
      total / cnt guarded against a zero count. */
  function GetOverallAverage(t: Table, user: Option<string>): (r: Result<real, Error>)
    ensures r.Ok? <==> Authed(user)
    ensures !Authed(user) ==> r == Err(Unauthorized)
    ensures r.Ok? && |UserRows(t, user.value)| == 0 ==> r.value == 0.0
    ensures r.Ok? && |UserRows(t, user.value)| > 0 ==>
      r.value == Sum(Minutes(UserRows(t, user.value))) as real / |UserRows(t, user.value)| as real
  {
    if !Authed(user) then Err(Unauthorized)
    else
      var rows := UserRows(t, user.value);
      var cnt := |rows|;
      var total := Sum(Minutes(rows));
      if cnt <= 0 then Ok(0.0) else Ok(total as real / cnt as real)
  }

  /** The distinct dates of some rows, newest first. */
  function DatesDescending(rows: seq<Row>): (ds: seq<string>)
    ensures Descending(ds)
    ensures forall d :: d in ds <==> exists x | x in rows :: x.date == d
    decreases |rows|
  {
    if |rows| == 0 then []
    else
      var rest := DatesDescending(rows[1..]);
      assert forall x | x in rows[1..] :: x in rows;
      assert forall x | x in rows :: x == rows[0] || x in rows[1..];
      InsertDescending(rows[0].date, rest)
  }

  /** listDatesWithSessions(): SELECT DISTINCT date ... ORDER BY date DESC. */
  function ListDatesWithSessions(t: Table, user: Option<string>): (r: Result<seq<string>, Error>)
    ensures r.Ok? <==> Authed(user)
    ensures !Authed(user) ==> r == Err(Unauthorized)
    ensures r.Ok? ==> Descending(r.value)
    ensures r.Ok? ==> forall d :: d in r.value <==> exists x | x in t :: x.user == user.value && x.date == d
  {
    if !Authed(user) then Err(Unauthorized)
    else Ok(DatesDescending(UserRows(t, user.value)))
  }
}
