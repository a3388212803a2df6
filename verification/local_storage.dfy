/** The browser-side ledger of src/lib/storage.ts: one JSON object in
    localStorage that maps each day key to an array of minutes. The object
    itself stands in for readAll/writeAll, so every operation is a function
    from the old map to the new one. */
module LocalStorage {
  import opened MinuteLists

  /** What JSON.parse may leave under a day key: an array of numbers, or some
      other JSON value (Array.isArray is false for it). */
  datatype Entry = List(items: seq<int>) | NotList

  type Store = map<string, Entry>

  /** Array.isArray(map[dateKey]) ? map[dateKey] : [] */
  function Raw(store: Store, key: string): seq<int> {
    if key in store && store[key].List? then store[key].items else []
  }

  /** Every stored array holds positive values only. */
  ghost predicate StoreInv(store: Store) {
    forall k | k in store && store[k].List? :: AllPositive(store[k].items)
  }

  /** getSessions(dateKey): the stored array's positive values, [] when there is
      no array under the key. */
  function GetSessions(store: Store, key: string): (r: seq<int>)
    ensures !(key in store && store[key].List?) ==> r == []
    ensures AllPositive(r) && |r| <= |Raw(store, key)|
    ensures forall x :: x in r <==> x in Raw(store, key) && x > 0
  {
    Positive(Raw(store, key))
  }

  /** setSessions(dateKey, sessions): store the positive values (unrounded in
      the source; minutes are whole numbers here). */
  function SetSessions(store: Store, key: string, sessions: seq<int>): (r: Store)
    ensures key in r && r[key].List? && AllPositive(r[key].items)
    ensures r - {key} == store - {key}
    ensures GetSessions(r, key) == Positive(sessions)
  {
    PositiveIdempotent(sessions);
    store[key := List(Positive(sessions))]
  }

  /** addSession(dateKey, minutes): a value that is not positive is ignored;
      otherwise it goes at the end of the stored array, which is created when
      missing. */
  function AddSession(store: Store, key: string, minutes: int): (r: Store)
    ensures minutes <= 0 ==> r == store
    ensures minutes > 0 ==> key in r && r[key].List? && r[key].items == Raw(store, key) + [minutes]
    ensures r - {key} == store - {key}
  {
    if minutes <= 0 then store
    else store[key := List(Raw(store, key) + [minutes])]
  }

  /** removeSession(dateKey, index): splice(index, 1) on the stored array when
      the index is inside it; any other index changes nothing. */
  function RemoveSession(store: Store, key: string, index: int): (r: Store)
    ensures !(0 <= index < |Raw(store, key)|) ==> r == store
    ensures 0 <= index < |Raw(store, key)| ==>
      && key in r && r[key].List?
      && |r[key].items| == |Raw(store, key)| - 1
      && (forall i | 0 <= i < index :: r[key].items[i] == Raw(store, key)[i])
      && (forall i | index <= i < |r[key].items| :: r[key].items[i] == Raw(store, key)[i + 1])
    ensures r - {key} == store - {key}
  {
    var arr := Raw(store, key);
    if 0 <= index < |arr| then store[key := List(arr[..index] + arr[index + 1..])]
    else store
  }

  /** clearDate(dateKey): delete map[dateKey]. */
  function ClearDate(store: Store, key: string): (r: Store)
    ensures key !in r
    ensures r - {key} == store - {key}
    ensures GetSessions(r, key) == []
  {
    store - {key}
  }

  // ---------------------------------------------------------------------------
  // The invariant and the view

  /** On a store whose arrays are all positive the view is the raw array, so the
      indices getSessions shows are the indices removeSession uses. */
  lemma ViewIsRaw(store: Store, key: string)
    requires StoreInv(store)
    ensures GetSessions(store, key) == Raw(store, key)
  {
    PositiveIdentity(Raw(store, key));
  }

  lemma SetSessionsInv(store: Store, key: string, sessions: seq<int>)
    requires StoreInv(store)
    ensures StoreInv(SetSessions(store, key, sessions))
  {
    var r := SetSessions(store, key, sessions);
    forall k | k in r && r[k].List? ensures AllPositive(r[k].items) {
      if k != key {
        assert k in r - {key};
      }
    }
  }

  lemma AddSessionInv(store: Store, key: string, minutes: int)
    requires StoreInv(store)
    ensures StoreInv(AddSession(store, key, minutes))
  {
    var r := AddSession(store, key, minutes);
    forall k | k in r && r[k].List? ensures AllPositive(r[k].items) {
      if k != key {
        assert k in r - {key};
      }
    }
  }

  lemma RemoveSessionInv(store: Store, key: string, index: int)
    requires StoreInv(store)
    ensures StoreInv(RemoveSession(store, key, index))
  {
    var r := RemoveSession(store, key, index);
    forall k | k in r && r[k].List? ensures AllPositive(r[k].items) {
      if k != key {
        assert k in r - {key};
      } else if 0 <= index < |Raw(store, key)| {
        var a := Raw(store, key);
        forall i | 0 <= i < |r[k].items| ensures r[k].items[i] > 0 {
          if i < index {
            assert r[k].items[i] == a[i];
          } else {
            assert r[k].items[i] == a[i + 1];
          }
        }
      }
    }
  }

  lemma ClearDateInv(store: Store, key: string)
    requires StoreInv(store)
    ensures StoreInv(ClearDate(store, key))
  {
    var r := ClearDate(store, key);
    forall k | k in r && r[k].List? ensures AllPositive(r[k].items) {
      assert k in r - {key};
    }
  }

  // ---------------------------------------------------------------------------
  // What getSessions shows after each mutator

  /** After addSession with a positive value the view gains it at the end. */
  lemma AddSessionView(store: Store, key: string, minutes: int)
    requires StoreInv(store) && minutes > 0
    ensures GetSessions(AddSession(store, key, minutes), key) == GetSessions(store, key) + [minutes]
  {
    var r := AddSession(store, key, minutes);
    AddSessionInv(store, key, minutes);
    ViewIsRaw(store, key);
    ViewIsRaw(r, key);
  }

  /** After removeSession the view loses exactly entry index when it has one. */
  lemma RemoveSessionView(store: Store, key: string, index: int)
    requires StoreInv(store)
    ensures var v := GetSessions(store, key);
      GetSessions(RemoveSession(store, key, index), key)
      == if 0 <= index < |v| then v[..index] + v[index + 1..] else v
  {
    var r := RemoveSession(store, key, index);
    RemoveSessionInv(store, key, index);
    ViewIsRaw(store, key);
    ViewIsRaw(r, key);
    var a := Raw(store, key);
    if 0 <= index < |a| {
      assert r[key].items == a[..index] + a[index + 1..];
    }
  }

  /** Without the invariant the two disagree: a stored 0 is hidden from the view
      but still takes index 0, so removing the first shown entry removes the
      hidden value instead. */
  lemma RemoveIndexesRawArray(store: Store, key: string)
    requires store == map[key := List([0, 5])]
    ensures GetSessions(store, key) == [5]
    ensures GetSessions(RemoveSession(store, key, 0), key) == [5]
  {
    assert Raw(store, key) == [0, 5];
    assert [0, 5][1..] == [5] && [5][1..] == [];
    var r := RemoveSession(store, key, 0);
    assert Raw(r, key) == [5];
  }

  /** Adding a value and then removing the last index restores the array; the
      whole store is restored when the key already held an array. */
  lemma AddThenRemoveRestores(store: Store, key: string, minutes: int)
    requires minutes > 0
    ensures Raw(RemoveSession(AddSession(store, key, minutes), key, |Raw(store, key)|), key) == Raw(store, key)
    ensures key in store && store[key].List? ==>
      RemoveSession(AddSession(store, key, minutes), key, |Raw(store, key)|) == store
  {
    var a := Raw(store, key);
    var added := AddSession(store, key, minutes);
    assert Raw(added, key) == a + [minutes];
    assert (a + [minutes])[..|a|] + (a + [minutes])[|a| + 1..] == a;
    var r := RemoveSession(added, key, |a|);
    if key in store && store[key].List? {
      assert r == store[key := List(a)];
      assert store[key] == List(a);
    }
  }
}
