/** The insert/update/skip decision of saveUserToDatabase
    (src/app/actions/saveUser.ts) over the users relation, keyed by id. A
    stored name is None for SQL NULL. */
module SaveUser {
  import opened Wrappers

  type Users = map<string, Option<string>>

  /** !existingUser.name: NULL or the empty string. */
  predicate NameUnset(name: Option<string>) {
    name.None? || name.value == ""
  }

  /** Whether saving name over the stored one writes it: a missing row is
      created, an unset name is filled in, an equal name is written again, and
      a different name that is already set is kept. */
  predicate Writes(users: Users, id: string, name: Option<string>) {
    id !in users || NameUnset(users[id]) || users[id] == name
  }

  /** saveUserToDatabase({id, name}) */
  function SaveUser(users: Users, id: string, name: Option<string>): (r: Users)
    ensures id in r
    ensures r - {id} == users - {id}
    ensures r[id] == name <==> Writes(users, id, name)
    ensures r[id] != name ==> id in users && r[id] == users[id] && !NameUnset(users[id])
  {
    if id in users then
      if NameUnset(users[id]) || users[id] == name then users[id := name] else users
    else users[id := name]
  }

  /** The call with the same arguments a second time changes nothing. */
  lemma SaveUserIdempotent(users: Users, id: string, name: Option<string>)
    ensures SaveUser(SaveUser(users, id, name), id, name) == SaveUser(users, id, name)
  {
    var once := SaveUser(users, id, name);
    if once[id] == name {
      assert once[id := name] == once;
    }
  }

  /** A name that is already set is never overwritten by a different one. */
  lemma SetNameIsKept(users: Users, id: string, name: Option<string>)
    requires id in users && !NameUnset(users[id]) && users[id] != name
    ensures SaveUser(users, id, name) == users
  {
  }

  /** Once a non-empty name has been saved, every later save keeps it. */
  lemma FirstNameWins(users: Users, id: string, first: string, later: Option<string>)
    requires first != ""
    requires Writes(users, id, Some(first))
    ensures SaveUser(SaveUser(users, id, Some(first)), id, later)[id] == Some(first)
  {
  }
}
