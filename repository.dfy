/** The user store: a sequence of records, looked up with `findOne`. */
module Repository {
  import opened Results
  import opened Models

  /** `k` is the position of the first record of `users` that satisfies `where`. */
  ghost predicate IsFirst(users: seq<User>, where: User -> bool, k: int)
  {
    0 <= k < |users| && where(users[k]) && forall j :: 0 <= j < k ==> !where(users[j])
  }

  /** The position of the first record satisfying `where`, or `|users|` when no record does. */
  function FirstMatch(users: seq<User>, where: User -> bool): (k: nat)
    ensures k <= |users|
    ensures k < |users| ==> where(users[k])
    ensures forall j :: 0 <= j < k ==> !where(users[j])
  {
    if users == [] then 0
    else if where(users[0]) then 0
    else
      var k := 1 + FirstMatch(users[1..], where);
      assert forall j :: 1 <= j < k ==> users[j] == users[1..][j - 1];
      k
  }

  /** The contract of `FirstMatch` picks out one position only. */
  lemma FirstMatchUnique(users: seq<User>, where: User -> bool, k: nat)
    requires k <= |users|
    requires k < |users| ==> where(users[k])
    requires forall j :: 0 <= j < k ==> !where(users[j])
    ensures FirstMatch(users, where) == k
  {
  }

  /** `findOne({where: ...})`: the first stored record matching the filter, if any. */
  function FindOne(users: seq<User>, where: User -> bool): (r: Option<User>)
    ensures r.None? <==> forall i :: 0 <= i < |users| ==> !where(users[i])
    ensures r.Some? ==> where(r.value) && r.value in users
  {
    var k := FirstMatch(users, where);
    if k < |users| then Some(users[k]) else None
  }

  /** `FindOne` returns the record at the first matching position. */
  lemma FindOneAt(users: seq<User>, where: User -> bool, k: int)
    requires IsFirst(users, where, k)
    ensures FindOne(users, where) == Some(users[k])
  {
    FirstMatchUnique(users, where, k);
  }

  /** A record appended to the store is found only when no earlier record matches. */
  lemma FindOneAppend(users: seq<User>, added: User, where: User -> bool)
    ensures FindOne(users + [added], where) ==
      if FindOne(users, where).Some? then FindOne(users, where)
      else if where(added) then Some(added)
      else None
  {
    var all := users + [added];
    var k := FirstMatch(users, where);
    assert forall j :: 0 <= j < |users| ==> all[j] == users[j];
    if k < |users| {
      FirstMatchUnique(all, where, k);
    } else if where(added) {
      FirstMatchUnique(all, where, |users|);
    } else {
      FirstMatchUnique(all, where, |all|);
    }
  }

  /** The filter `{where: {email: email}}`. */
  function ByEmail(email: string): User -> bool
  {
    (u: User) => u.email == email
  }

  /** The filter `{where: {id: id}}`. */
  function ById(id: nat): User -> bool
  {
    (u: User) => u.id == id
  }

  /** No two records share an id. */
  ghost predicate IdsDistinct(users: seq<User>)
  {
    forall i, j :: 0 <= i < j < |users| ==> users[i].id != users[j].id
  }

  /** The store behind the user repository; it gives each created record the next free id. */
  class UserRepository {
    var users: seq<User>
    var nextId: nat

    ghost predicate Valid()
      reads this
    {
      (forall i :: 0 <= i < |users| ==> users[i].id < nextId) && IdsDistinct(users)
    }

    constructor ()
      ensures Valid() && users == [] && nextId == 1
    {
      users := [];
      nextId := 1;
    }

    /** `create`: stores one new record under a fresh id and returns it. */
    method Create(email: string, password: string, roles: string, properties: map<string, string>) returns (created: User)
      requires Valid()
      modifies this
      ensures Valid()
      ensures created == User(old(nextId), email, password, roles, properties)
      ensures users == old(users) + [created]
      ensures nextId == old(nextId) + 1
      ensures forall i :: 0 <= i < |old(users)| ==> old(users)[i].id != created.id
    {
      created := User(nextId, email, password, roles, properties);
      users := users + [created];
      nextId := nextId + 1;
    }
  }
}
