/** The operations of `MemStorage` (server/storage.ts) as functions from the old
    store to the new one. The class in storage.dfy performs the same steps in
    place and is proved to end in the state these functions describe. */
module StoreSpec {
  import opened Seqs
  import opened FamilyTypes

  /** The fixed password given to a new account that has no hash yet. */
  const DefaultPassword: string := "password123"

  // ---------------------------------------------------------------------------
  // Fresh ids (the model of `randomUUID`)
  // ---------------------------------------------------------------------------

  /** A length at least that of every id in `ids`. */
  function MaxLength(ids: seq<Id>): (m: nat)
    ensures forall k :: 0 <= k < |ids| ==> |ids[k]| <= m
  {
    if |ids| == 0 then 0
    else
      var rest := MaxLength(ids[1..]);
      if |ids[0]| <= rest then rest else |ids[0]|
  }

  /** An id that is none of `taken`: longer than all of them. */
  function FreshId(taken: seq<Id>): (id: Id)
    ensures id !in taken
  {
    seq(MaxLength(taken) + 1, _ => 'u')
  }

  /** Every id the store already uses, for persons and for logins. */
  function TakenIds(d: DataStore): (ids: seq<Id>)
    ensures forall p :: p in d.persons ==> p.id in ids
    ensures forall u :: u in d.users ==> u.id in ids
  {
    var pIds := seq(|d.persons|, i requires 0 <= i < |d.persons| => d.persons[i].id);
    var uIds := seq(|d.users|, i requires 0 <= i < |d.users| => d.users[i].id);
    assert forall k :: 0 <= k < |d.persons| ==> pIds[k] == d.persons[k].id;
    assert forall k :: 0 <= k < |d.users| ==> uIds[k] == d.users[k].id;
    pIds + uIds
  }

  // ---------------------------------------------------------------------------
  // Lookups: getPerson, getUser, getUserByUsername
  // ---------------------------------------------------------------------------

  function GetPerson(persons: seq<Person>, id: Id): (r: Option<Person>)
    ensures r.None? <==> forall k :: 0 <= k < |persons| ==> persons[k].id != id
    ensures r.Some? ==> r.value.id == id && r.value in persons
    ensures r.Some? ==> r.value == persons[FirstIndex(persons, PersonIdIs(id))]
  {
    var k := FirstIndex(persons, PersonIdIs(id));
    if k < 0 then None else Some(persons[k])
  }

  function GetUser(users: seq<UserRecord>, id: Id): (r: Option<UserRecord>)
    ensures r.None? <==> forall k :: 0 <= k < |users| ==> users[k].id != id
    ensures r.Some? ==> r.value.id == id && r.value in users
    ensures r.Some? ==> r.value == users[FirstIndex(users, UserIdIs(id))]
  {
    var k := FirstIndex(users, UserIdIs(id));
    if k < 0 then None else Some(users[k])
  }

  function GetUserByUsername(users: seq<UserRecord>, name: string): (r: Option<UserRecord>)
    ensures r.None? <==> forall k :: 0 <= k < |users| ==> users[k].username != name
    ensures r.Some? ==> r.value.username == name && r.value in users
    ensures r.Some? ==> r.value == users[FirstIndex(users, UserNameIs(Some(name)))]
  {
    var k := FirstIndex(users, UserNameIs(Some(name)));
    if k < 0 then None else Some(users[k])
  }

  // ---------------------------------------------------------------------------
  // createUser
  // ---------------------------------------------------------------------------

  /** `createUser`: a login with a fresh id and the hash of the given password, appended. */
  function CreateUserSpec(d: DataStore, hash: string -> Hash, username: string, password: string)
    : (r: (DataStore, UserRecord))
    ensures r.0.persons == d.persons
    ensures r.0.users == d.users + [r.1]
    ensures r.1.username == username && r.1.password == hash(password)
    ensures r.1.id !in TakenIds(d)
  {
    var u := UserRecord(FreshId(TakenIds(d)), username, hash(password));
    (DataStore(d.users + [u], d.persons), u)
  }

  // ---------------------------------------------------------------------------
  // createPerson
  // ---------------------------------------------------------------------------

  /** `person.role || "none"` */
  function RoleOrNone(role: Option<Role>): Role
  {
    if role.Some? then role.value else RoleNone
  }

  /** The condition under which `createPerson` provisions a login. */
  predicate ProvisionsLogin(f: NewPerson, password: Option<string>)
  {
    RoleOrNone(f.role) != RoleNone && Truthy(f.username) && Truthy(password)
  }

  /** The record `createPerson` builds before any login is provisioned. */
  function NewPersonRecord(f: NewPerson, id: Id): Person
  {
    Person(id, f.firstName, f.lastName, f.age, f.residence, f.occupation, f.bio, f.whatsapp,
           f.fatherId, f.motherId, f.spouseId, RoleOrNone(f.role), f.username, None,
           if f.sideRelations.Some? then f.sideRelations.value else [])
  }

  /** `createPerson(person, password)`. */
  function CreatePersonSpec(d: DataStore, hash: string -> Hash, f: NewPerson, password: Option<string>)
    : (r: (DataStore, Person))
    // exactly one record appended at the end, with an id no person or login carries
    ensures r.0.persons == d.persons + [r.1]
    ensures r.1.id !in TakenIds(d)
    // the given fields are stored, role defaults to "none" and side relations to []
    ensures r.1 == NewPersonRecord(f, r.1.id).(passwordHash := r.1.passwordHash)
    ensures f.role.None? ==> r.1.role == RoleNone
    ensures f.sideRelations.None? ==> r.1.sideRelations == []
    // a hash is stored, and a login appended, exactly when a login is provisioned
    ensures r.1.passwordHash.Some? <==> ProvisionsLogin(f, password)
    ensures ProvisionsLogin(f, password) ==>
              r.1.passwordHash == Some(hash(password.value)) &&
              r.0.users == d.users + [UserRecord(r.1.id, f.username.value, hash(password.value))]
    ensures !ProvisionsLogin(f, password) ==> r.0.users == d.users
  {
    var p := NewPersonRecord(f, FreshId(TakenIds(d)));
    if ProvisionsLogin(f, password) then
      var h := hash(password.value);
      var q := p.(passwordHash := Some(h));
      (DataStore(d.users + [UserRecord(q.id, q.username.value, h)], d.persons + [q]), q)
    else
      (DataStore(d.users, d.persons + [p]), p)
  }

  // ---------------------------------------------------------------------------
  // updatePerson
  // ---------------------------------------------------------------------------

  /** One key of the spread `{...current, ...updates}`. */
  function Apply<T>(patch: Patch<T>, current: Option<T>): (r: Option<T>)
    ensures patch.Keep? ==> r == current
    ensures patch.Put? ==> r == patch.value
  {
    match patch
    case Keep => current
    case Put(v) => v
  }

  /** The merged record of `updatePerson`: the spread of the update over the current record,
      then `role: updates.role || current.role` and `username: updates.newUsername || current.username`. */
  function Merge(cur: Person, u: PersonUpdate): (r: Person)
    ensures r.id == cur.id && r.passwordHash == cur.passwordHash
    ensures r.role == (if u.role.Some? then u.role.value else cur.role)
    ensures r.username == (if Truthy(u.newUsername) then u.newUsername else cur.username)
    ensures Truthy(cur.username) ==> Truthy(r.username)
    ensures u.firstName.Keep? ==> r.firstName == cur.firstName
    ensures u.firstName.Put? ==> r.firstName == u.firstName.value
    ensures u.lastName.Keep? ==> r.lastName == cur.lastName
    ensures u.lastName.Put? ==> r.lastName == u.lastName.value
    ensures u.age.Keep? ==> r.age == cur.age
    ensures u.age.Put? ==> r.age == u.age.value
    ensures u.residence.Keep? ==> r.residence == cur.residence
    ensures u.residence.Put? ==> r.residence == u.residence.value
    ensures u.occupation.Keep? ==> r.occupation == cur.occupation
    ensures u.occupation.Put? ==> r.occupation == u.occupation.value
    ensures u.bio.Keep? ==> r.bio == cur.bio
    ensures u.bio.Put? ==> r.bio == u.bio.value
    ensures u.whatsapp.Keep? ==> r.whatsapp == cur.whatsapp
    ensures u.whatsapp.Put? ==> r.whatsapp == u.whatsapp.value
    ensures u.fatherId.Keep? ==> r.fatherId == cur.fatherId
    ensures u.fatherId.Put? ==> r.fatherId == u.fatherId.value
    ensures u.motherId.Keep? ==> r.motherId == cur.motherId
    ensures u.motherId.Put? ==> r.motherId == u.motherId.value
    ensures u.spouseId.Keep? ==> r.spouseId == cur.spouseId
    ensures u.spouseId.Put? ==> r.spouseId == u.spouseId.value
    ensures u.sideRelations.None? ==> r.sideRelations == cur.sideRelations
    ensures u.sideRelations.Some? ==> r.sideRelations == u.sideRelations.value
  {
    cur.(firstName := Apply(u.firstName, cur.firstName),
         lastName := Apply(u.lastName, cur.lastName),
         age := Apply(u.age, cur.age),
         residence := Apply(u.residence, cur.residence),
         occupation := Apply(u.occupation, cur.occupation),
         bio := Apply(u.bio, cur.bio),
         whatsapp := Apply(u.whatsapp, cur.whatsapp),
         fatherId := Apply(u.fatherId, cur.fatherId),
         motherId := Apply(u.motherId, cur.motherId),
         spouseId := Apply(u.spouseId, cur.spouseId),
         sideRelations := if u.sideRelations.Some? then u.sideRelations.value else cur.sideRelations,
         role := if u.role.Some? then u.role.value else cur.role,
         username := if Truthy(u.newUsername) then u.newUsername else cur.username)
  }

  /** The password step of `updatePerson`: a non-empty new password is hashed into the merged
      record and into the first login whose username is the merged username. */
  function RotatePassword(upd: Person, users: seq<UserRecord>, hash: string -> Hash, newPassword: Option<string>)
    : (r: (Person, seq<UserRecord>))
    ensures !Truthy(newPassword) ==> r == (upd, users)
    ensures Truthy(newPassword) ==> r.0 == upd.(passwordHash := Some(hash(newPassword.value)))
    ensures |r.1| == |users|
    ensures Truthy(newPassword) ==>
              forall k :: 0 <= k < |users| ==>
                r.1[k] == if k == FirstIndex(users, UserNameIs(upd.username))
                          then users[k].(password := hash(newPassword.value))
                          else users[k]
  {
    if Truthy(newPassword) then
      var h := hash(newPassword.value);
      var j := FirstIndex(users, UserNameIs(upd.username));
      (upd.(passwordHash := Some(h)), if j < 0 then users else users[j := users[j].(password := h)])
    else
      (upd, users)
  }

  /** A login is created: the merged record has a role and a username, the current one had none. */
  predicate IsNewAccount(cur: Person, upd: Person)
  {
    upd.role != RoleNone && Truthy(upd.username) && !Truthy(cur.username)
  }

  /** The login is removed: the role goes from something to "none". */
  predicate IsAccountRemoval(cur: Person, upd: Person)
  {
    upd.role == RoleNone && cur.role != RoleNone
  }

  /** The login is renamed: neither of the above, and a username that existed changes. */
  predicate IsRename(cur: Person, upd: Person)
  {
    !IsNewAccount(cur, upd) && !IsAccountRemoval(cur, upd) &&
    Truthy(cur.username) && upd.username != cur.username
  }

  /** The three-way account transition of `updatePerson`, applied after the password step. */
  function AccountTransition(cur: Person, upd: Person, users: seq<UserRecord>, hash: string -> Hash)
    : (r: (Person, seq<UserRecord>))
    requires Truthy(cur.username) ==> Truthy(upd.username)
    ensures !(IsNewAccount(cur, upd) && IsAccountRemoval(cur, upd))
    ensures IsNewAccount(cur, upd) ==>
              r.0 == upd.(passwordHash := r.0.passwordHash) &&
              r.0.passwordHash == (if upd.passwordHash.Some? then upd.passwordHash
                                   else Some(hash(DefaultPassword))) &&
              r.1 == users + [UserRecord(upd.id, upd.username.value, r.0.passwordHash.value)]
    ensures IsAccountRemoval(cur, upd) ==>
              r.0 == upd.(username := None, passwordHash := None) &&
              r.1 == Filter(users, UserNameIsNot(cur.username))
    ensures IsRename(cur, upd) ==>
              r.0 == upd && |r.1| == |users| &&
              forall k :: 0 <= k < |users| ==>
                r.1[k] == if k == FirstIndex(users, UserNameIs(cur.username))
                          then users[k].(username := upd.username.value)
                          else users[k]
    ensures !IsNewAccount(cur, upd) && !IsAccountRemoval(cur, upd) && !IsRename(cur, upd) ==>
              r == (upd, users)
  {
    if IsNewAccount(cur, upd) then
      var h := if upd.passwordHash.Some? then upd.passwordHash.value else hash(DefaultPassword);
      var q := upd.(passwordHash := Some(h));
      (q, users + [UserRecord(q.id, q.username.value, h)])
    else if IsAccountRemoval(cur, upd) then
      (upd.(username := None, passwordHash := None), Filter(users, UserNameIsNot(cur.username)))
    else if Truthy(cur.username) && upd.username != cur.username then
      var j := FirstIndex(users, UserNameIs(cur.username));
      (upd, if j < 0 then users else users[j := users[j].(username := upd.username.value)])
    else
      (upd, users)
  }

  /** `updatePerson(id, updates)`: `None` when no person has the id. */
  function UpdatePersonSpec(d: DataStore, hash: string -> Hash, id: Id, u: PersonUpdate)
    : (r: (DataStore, Option<Person>))
    ensures r.1.None? <==> forall k :: 0 <= k < |d.persons| ==> d.persons[k].id != id
    ensures r.1.None? ==> r.0 == d
    ensures r.1.Some? ==>
              var i := FirstIndex(d.persons, PersonIdIs(id));
              r.1.value.id == id && r.0.persons == d.persons[i := r.1.value]
  {
    var i := FirstIndex(d.persons, PersonIdIs(id));
    if i < 0 then (d, None)
    else
      var cur := d.persons[i];
      var merged := Merge(cur, u);
      var rotated := RotatePassword(merged, d.users, hash, u.newPassword);
      var final := AccountTransition(cur, rotated.0, rotated.1, hash);
      (DataStore(final.1, d.persons[i := final.0]), Some(final.0))
  }

  /** What `updatePerson` does to the role, username and hash of the person it finds, and to
      the number of logins, branch by branch. */
  lemma UpdatePersonOutcome(d: DataStore, hash: string -> Hash, id: Id, u: PersonUpdate)
    requires exists k :: 0 <= k < |d.persons| && d.persons[k].id == id
    ensures var cur := d.persons[FirstIndex(d.persons, PersonIdIs(id))];
      var merged := Merge(cur, u);
      var (d', r) := UpdatePersonSpec(d, hash, id, u);
      var p := r.value;
      && r.Some? && p.id == id && p.role == merged.role
      && (IsAccountRemoval(cur, merged) ==>
            p.username.None? && p.passwordHash.None? &&
            forall v :: v in d'.users ==> Some(v.username) != cur.username)
      && (!IsAccountRemoval(cur, merged) ==> p.username == merged.username)
      && (!IsAccountRemoval(cur, merged) && Truthy(u.newPassword) ==>
            p.passwordHash == Some(hash(u.newPassword.value)))
      && (!IsNewAccount(cur, merged) && !IsAccountRemoval(cur, merged) && !Truthy(u.newPassword) ==>
            p.passwordHash == cur.passwordHash)
      && (IsNewAccount(cur, merged) ==>
            |d'.users| == |d.users| + 1 && d'.users[|d.users|] == UserRecord(id, p.username.value, p.passwordHash.value))
      && (IsNewAccount(cur, merged) && !Truthy(u.newPassword) && cur.passwordHash.None? ==>
            p.passwordHash == Some(hash(DefaultPassword)))
      && (!IsNewAccount(cur, merged) && !IsAccountRemoval(cur, merged) ==> |d'.users| == |d.users|)
  {
    var i := FirstIndex(d.persons, PersonIdIs(id));
    var cur := d.persons[i];
    var merged := Merge(cur, u);
    var rot := RotatePassword(merged, d.users, hash, u.newPassword);
    assert IsNewAccount(cur, rot.0) == IsNewAccount(cur, merged);
    assert IsAccountRemoval(cur, rot.0) == IsAccountRemoval(cur, merged);
  }

  // ---------------------------------------------------------------------------
  // deletePerson
  // ---------------------------------------------------------------------------

  /** `p` points at `id` through a parent, spouse or side-relation link. */
  predicate References(p: Person, id: Id)
  {
    p.fatherId == Some(id) || p.motherId == Some(id) || p.spouseId == Some(id) ||
    exists rel :: rel in p.sideRelations && rel.id == id
  }

  /** The clean-up applied to every remaining person after a deletion. */
  function Sweep(p: Person, id: Id): (r: Person)
    ensures !References(r, id)
    ensures r.id == p.id && r.role == p.role && r.username == p.username && r.passwordHash == p.passwordHash
    ensures r.fatherId == if p.fatherId == Some(id) then None else p.fatherId
    ensures r.motherId == if p.motherId == Some(id) then None else p.motherId
    ensures r.spouseId == if p.spouseId == Some(id) then None else p.spouseId
    ensures forall rel :: rel in r.sideRelations <==> rel in p.sideRelations && rel.id != id
    ensures r == p.(fatherId := r.fatherId, motherId := r.motherId, spouseId := r.spouseId,
                    sideRelations := r.sideRelations)
  {
    p.(fatherId := if p.fatherId == Some(id) then None else p.fatherId,
       motherId := if p.motherId == Some(id) then None else p.motherId,
       spouseId := if p.spouseId == Some(id) then None else p.spouseId,
       sideRelations := Filter(p.sideRelations, RelationIdIsNot(id)))
  }

  /** `Sweep` applied to each person, in order. */
  function SweepAll(ps: seq<Person>, id: Id): (r: seq<Person>)
    ensures |r| == |ps|
    ensures forall k :: 0 <= k < |ps| ==> r[k] == Sweep(ps[k], id)
  {
    seq(|ps|, k requires 0 <= k < |ps| => Sweep(ps[k], id))
  }

  /** `deletePerson(id)`: the login of the first person with the id is dropped by username,
      every person with the id is dropped, and the others are swept. */
  function DeletePersonSpec(d: DataStore, id: Id): (r: (DataStore, bool))
    ensures r.1 <==> exists k :: 0 <= k < |d.persons| && d.persons[k].id == id
    ensures |r.0.persons| <= |d.persons|
  {
    var k := FirstIndex(d.persons, PersonIdIs(id));
    var users := if k >= 0 && Truthy(d.persons[k].username)
                 then Filter(d.users, UserNameIsNot(d.persons[k].username))
                 else d.users;
    var persons := SweepAll(Filter(d.persons, PersonIdIsNot(id)), id);
    (DataStore(users, persons), |persons| < |d.persons|)
  }

  // ---------------------------------------------------------------------------
  // updateUserPassword
  // ---------------------------------------------------------------------------

  /** `updateUserPassword(username, hash)`. */
  function UpdateUserPasswordSpec(d: DataStore, name: string, h: Hash): (r: (DataStore, bool))
    ensures !r.1 <==> forall k :: 0 <= k < |d.users| ==> d.users[k].username != name
    ensures !r.1 ==> r.0 == d
    ensures |r.0.users| == |d.users| && |r.0.persons| == |d.persons|
    ensures r.1 ==>
              var j := FirstIndex(d.users, UserNameIs(Some(name)));
              forall k :: 0 <= k < |d.users| ==>
                r.0.users[k] == if k == j then d.users[k].(password := h) else d.users[k]
    ensures r.1 ==>
              var m := FirstIndex(d.persons, PersonNameIs(Some(name)));
              forall k :: 0 <= k < |d.persons| ==>
                r.0.persons[k] == if k == m then d.persons[k].(passwordHash := Some(h)) else d.persons[k]
  {
    var j := FirstIndex(d.users, UserNameIs(Some(name)));
    if j < 0 then (d, false)
    else
      var m := FirstIndex(d.persons, PersonNameIs(Some(name)));
      var persons := if m < 0 then d.persons else d.persons[m := d.persons[m].(passwordHash := Some(h))];
      (DataStore(d.users[j := d.users[j].(password := h)], persons), true)
  }
}
