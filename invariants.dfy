/** The cross-collection invariant of the store: a login with the same id and
    username exists exactly for the persons that have a username and a role other
    than "none", and it carries the person's hash. Which operations keep it, under
    which conditions, and concrete stores showing the paths on which the code
    breaks it. */
module Invariants {
  import opened Seqs
  import opened FamilyTypes
  import opened StoreSpec
  import opened Seed

  /** `u` is `p`'s login: same id, same username. */
  predicate HoldsLogin(p: Person, u: UserRecord)
  {
    u.id == p.id && p.username == Some(u.username)
  }

  /** `p` owns `u` as an account: its login, with a role and the same hash on both sides. */
  predicate Owns(p: Person, u: UserRecord)
  {
    HoldsLogin(p, u) && p.role != RoleNone && p.passwordHash == Some(u.password)
  }

  /** `p` should have a login: a username and a role other than "none". */
  predicate HasAccount(p: Person)
  {
    Truthy(p.username) && p.role != RoleNone
  }

  function DistinctIds(a: Person, b: Person): bool
  {
    a.id != b.id
  }

  function DistinctLoginNames(a: UserRecord, b: UserRecord): bool
  {
    a.username != b.username
  }

  function DistinctPersonNames(a: Person, b: Person): bool
  {
    Truthy(a.username) ==> a.username != b.username
  }

  ghost predicate HasLogin(d: DataStore, p: Person)
  {
    exists u :: u in d.users && HoldsLogin(p, u)
  }

  /** Every login is owned by a stored person. */
  ghost predicate LoginsOwned(d: DataStore)
  {
    forall u :: u in d.users ==> u.username != "" && exists p :: p in d.persons && Owns(p, u)
  }

  /** Every person that should have a login has one. */
  ghost predicate AccountsHaveLogins(d: DataStore)
  {
    forall p :: p in d.persons && HasAccount(p) ==> HasLogin(d, p)
  }

  /** The invariant: unique ids and usernames, and the two collections in step. */
  ghost predicate Consistent(d: DataStore)
  {
    && Pairwise(d.persons, DistinctIds)
    && Pairwise(d.users, DistinctLoginNames)
    && Pairwise(d.persons, DistinctPersonNames)
    && LoginsOwned(d)
    && AccountsHaveLogins(d)
  }

  /** No stored person, and hence no login, uses the username `name`. */
  ghost predicate NameFree(d: DataStore, name: Option<string>)
  {
    forall q :: q in d.persons ==> q.username != name
  }

  lemma SameIdSamePerson(ps: seq<Person>, p: Person, q: Person)
    requires Pairwise(ps, DistinctIds) && p in ps && q in ps && p.id == q.id
    ensures p == q
  {
    var i :| 0 <= i < |ps| && ps[i] == p;
    var j :| 0 <= j < |ps| && ps[j] == q;
  }

  lemma SameNameSamePerson(ps: seq<Person>, p: Person, q: Person)
    requires Pairwise(ps, DistinctPersonNames) && p in ps && q in ps
    requires Truthy(p.username) && p.username == q.username
    ensures p == q
  {
    var i :| 0 <= i < |ps| && ps[i] == p;
    var j :| 0 <= j < |ps| && ps[j] == q;
  }

  /** The login named after a person's username is that person's own. */
  lemma LoginNamedOwnedBy(d: DataStore, p: Person, u: UserRecord)
    requires Consistent(d) && p in d.persons && u in d.users
    requires p.username == Some(u.username)
    ensures Owns(p, u)
  {
    var q :| q in d.persons && Owns(q, u);
    SameNameSamePerson(d.persons, q, p);
  }

  /** A username no person uses is the username of no login. */
  lemma FreeNameHasNoLogin(d: DataStore, name: Option<string>)
    requires Consistent(d) && NameFree(d, name)
    ensures forall u :: u in d.users ==> Some(u.username) != name
  {
  }

  /** The intended invariant: a person has a login with its id and username
      exactly when it has a username and a role other than "none", and that login carries
      the person's hash. */
  lemma LoginIffAccount(d: DataStore, p: Person)
    requires Consistent(d) && p in d.persons
    ensures HasLogin(d, p) <==> HasAccount(p)
    ensures forall u :: u in d.users && HoldsLogin(p, u) ==> p.passwordHash == Some(u.password)
  {
    forall u | u in d.users && HoldsLogin(p, u)
      ensures HasAccount(p) && p.passwordHash == Some(u.password)
    {
      var q :| q in d.persons && Owns(q, u);
      SameIdSamePerson(d.persons, p, q);
    }
  }

  // ---------------------------------------------------------------------------
  // createPerson
  // ---------------------------------------------------------------------------

  /** The conditions under which `createPerson` keeps the invariant: the username is not
      taken, and a person given a role and a username is also given a password. */
  ghost predicate SafeCreate(d: DataStore, f: NewPerson, password: Option<string>)
  {
    && (Truthy(f.username) ==> NameFree(d, f.username))
    && (RoleOrNone(f.role) != RoleNone && Truthy(f.username) ==> Truthy(password))
  }

  /** Appending a person with a fresh id and a free username, together with at most one
      login, which it owns and which it must have, keeps the invariant. */
  lemma AppendPersonKeepsConsistent(d: DataStore, p: Person, extra: seq<UserRecord>)
    requires Consistent(d)
    requires forall q :: q in d.persons ==> q.id != p.id
    requires Truthy(p.username) ==> NameFree(d, p.username)
    requires |extra| <= 1
    requires forall v :: v in extra ==> v.username != "" && Owns(p, v)
    requires HasAccount(p) ==> exists v :: v in extra && HoldsLogin(p, v)
    ensures Consistent(DataStore(d.users + extra, d.persons + [p]))
  {
    var d' := DataStore(d.users + extra, d.persons + [p]);
    assert forall k :: 0 <= k < |d.persons| ==> d.persons[k] in d.persons;
    PairwiseAppend(d.persons, p, DistinctIds);
    PairwiseAppend(d.persons, p, DistinctPersonNames);
    if |extra| == 1 {
      var login := extra[0];
      assert login in extra;
      FreeNameHasNoLogin(d, p.username);
      assert forall k :: 0 <= k < |d.users| ==> d.users[k] in d.users;
      PairwiseAppend(d.users, login, DistinctLoginNames);
      assert d'.users == d.users + [login];
    } else {
      assert d'.users == d.users;
    }
    assert forall q :: q in d'.persons <==> q in d.persons || q == p;
    assert forall v :: v in d'.users <==> v in d.users || v in extra;
  }

  lemma CreatePersonKeepsConsistent(d: DataStore, hash: string -> Hash, f: NewPerson, password: Option<string>)
    requires Consistent(d) && SafeCreate(d, f, password)
    ensures Consistent(CreatePersonSpec(d, hash, f, password).0)
  {
    var (d', p) := CreatePersonSpec(d, hash, f, password);
    assert forall q :: q in d.persons ==> q.id != p.id;
    if ProvisionsLogin(f, password) {
      var login := UserRecord(p.id, f.username.value, hash(password.value));
      assert login in [login] && Owns(p, login);
      AppendPersonKeepsConsistent(d, p, [login]);
    } else {
      AppendPersonKeepsConsistent(d, p, []);
      assert d.users + [] == d.users;
    }
  }

  /** The path the invariant excludes: a role and a username but no password store the
      username without a login. */
  lemma CreateWithoutPasswordBreaksConsistent(hash: string -> Hash)
    ensures
      var f := NewPerson(Some("Sara"), None, None, None, None, None, None, None, None, None,
                         Some(RoleUser), Some("sara"), None);
      var (d', p) := CreatePersonSpec(DataStore([], []), hash, f, None);
      Consistent(DataStore([], [])) && HasAccount(p) && !HasLogin(d', p) && !Consistent(d')
  {
    var f := NewPerson(Some("Sara"), None, None, None, None, None, None, None, None, None,
                       Some(RoleUser), Some("sara"), None);
    var (d', p) := CreatePersonSpec(DataStore([], []), hash, f, None);
    assert d'.users == [];
    assert p in d'.persons;
  }

  /** `createUser` never keeps the invariant: the login it appends carries a fresh id, which no
      person has, so no person owns it. */
  lemma CreateUserBreaksConsistent(d: DataStore, hash: string -> Hash, username: string, password: string)
    ensures !Consistent(CreateUserSpec(d, hash, username, password).0)
  {
    var (d', v) := CreateUserSpec(d, hash, username, password);
    assert v in d'.users;
    forall p | p in d'.persons
      ensures !Owns(p, v)
    {
      assert p.id in TakenIds(d);
    }
  }

  // ---------------------------------------------------------------------------
  // deletePerson
  // ---------------------------------------------------------------------------

  /** The ids of the stored persons. */
  function IdSet(ps: seq<Person>): set<Id>
  {
    set q | q in ps :: q.id
  }

  /** Every parent, spouse and side-relation link of `p` names a stored person. */
  ghost predicate PointsInto(p: Person, ids: set<Id>)
  {
    && (p.fatherId.Some? ==> p.fatherId.value in ids)
    && (p.motherId.Some? ==> p.motherId.value in ids)
    && (p.spouseId.Some? ==> p.spouseId.value in ids)
    && (forall rel :: rel in p.sideRelations ==> rel.id in ids)
  }

  /** No link of any stored person dangles. */
  ghost predicate RelationsClosed(ps: seq<Person>)
  {
    forall p :: p in ps ==> PointsInto(p, IdSet(ps))
  }

  /** Afterwards no person has the id, no person links to it, and the others remain, swept. */
  lemma DeleteRemovesPersonAndLinks(d: DataStore, id: Id)
    ensures var d' := DeletePersonSpec(d, id).0;
      && (forall q :: q in d'.persons ==> q.id != id && !References(q, id))
      && (forall q :: q in d'.persons ==> exists p :: p in d.persons && p.id != id && q == Sweep(p, id))
      && (forall p :: p in d.persons && p.id != id ==> Sweep(p, id) in d'.persons)
  {
    var kept := Filter(d.persons, PersonIdIsNot(id));
    var d' := DeletePersonSpec(d, id).0;
    assert d'.persons == SweepAll(kept, id);
    forall q | q in d'.persons
      ensures exists p :: p in d.persons && p.id != id && q == Sweep(p, id)
    {
      var j :| 0 <= j < |d'.persons| && d'.persons[j] == q;
      assert kept[j] in kept;
    }
    forall p | p in d.persons && p.id != id
      ensures Sweep(p, id) in d'.persons
    {
      assert PersonIdIsNot(id)(p);
      var j :| 0 <= j < |kept| && kept[j] == p;
      assert d'.persons[j] == Sweep(p, id);
    }
  }

  /** The remaining persons keep their relative order: with unique ids, the result is the
      old sequence without the deleted person, each swept. */
  lemma DeleteKeepsOrder(d: DataStore, id: Id)
    requires Pairwise(d.persons, DistinctIds)
    ensures var k := FirstIndex(d.persons, PersonIdIs(id));
      DeletePersonSpec(d, id).0.persons ==
        if k < 0 then SweepAll(d.persons, id)
        else SweepAll(d.persons[..k] + d.persons[k + 1..], id)
  {
    var k := FirstIndex(d.persons, PersonIdIs(id));
    if k < 0 {
      assert forall j :: 0 <= j < |d.persons| ==> PersonIdIsNot(id)(d.persons[j]);
      FilterAll(d.persons, PersonIdIsNot(id));
    } else {
      forall j | 0 <= j < |d.persons| && j != k
        ensures PersonIdIsNot(id)(d.persons[j])
      {
        assert DistinctIds(d.persons[j], d.persons[k]);
      }
      FilterExceptOne(d.persons, PersonIdIsNot(id), k);
    }
  }

  /** The login of the deleted person is gone, and no login is added or changed. */
  lemma DeleteRemovesLogin(d: DataStore, id: Id)
    ensures var d' := DeletePersonSpec(d, id).0;
      && (forall u :: u in d'.users ==> u in d.users)
      && (forall p, u :: p in d.persons && p.id == id && u in d'.users && Consistent(d) ==> !HoldsLogin(p, u))
  {
    var d' := DeletePersonSpec(d, id).0;
    var k := FirstIndex(d.persons, PersonIdIs(id));
    forall p, u | p in d.persons && p.id == id && u in d'.users && Consistent(d)
      ensures !HoldsLogin(p, u)
    {
      SameIdSamePerson(d.persons, p, d.persons[k]);
    }
  }

  /** The sweep keeps ids and usernames, so uniqueness carries over to the remaining persons. */
  lemma DeleteKeepsUniquePersons(d: DataStore, id: Id)
    requires Pairwise(d.persons, DistinctIds) && Pairwise(d.persons, DistinctPersonNames)
    ensures var ps' := DeletePersonSpec(d, id).0.persons;
      Pairwise(ps', DistinctIds) && Pairwise(ps', DistinctPersonNames)
  {
    var kept := Filter(d.persons, PersonIdIsNot(id));
    var ps' := DeletePersonSpec(d, id).0.persons;
    FilterPairwise(d.persons, PersonIdIsNot(id), DistinctIds);
    FilterPairwise(d.persons, PersonIdIsNot(id), DistinctPersonNames);
    assert ps' == SweepAll(kept, id);
    forall i, j | 0 <= i < |ps'| && 0 <= j < |ps'| && i != j
      ensures DistinctIds(ps'[i], ps'[j]) && DistinctPersonNames(ps'[i], ps'[j])
    {
      assert DistinctIds(kept[i], kept[j]) && DistinctPersonNames(kept[i], kept[j]);
    }
  }

  /** Every remaining login still has its owner, swept. */
  lemma DeleteKeepsLoginsOwned(d: DataStore, id: Id)
    requires Consistent(d)
    ensures LoginsOwned(DeletePersonSpec(d, id).0)
  {
    var d' := DeletePersonSpec(d, id).0;
    DeleteRemovesPersonAndLinks(d, id);
    DeleteRemovesLogin(d, id);
    forall u | u in d'.users
      ensures u.username != "" && exists q :: q in d'.persons && Owns(q, u)
    {
      var p :| p in d.persons && Owns(p, u);
      assert p.id != id;
      assert Owns(Sweep(p, id), u);
    }
  }

  /** Every login with another id survives the deletion. */
  lemma DeleteKeepsOtherLogins(d: DataStore, id: Id)
    requires Consistent(d)
    ensures forall u :: u in d.users && u.id != id ==> u in DeletePersonSpec(d, id).0.users
  {
    var k := FirstIndex(d.persons, PersonIdIs(id));
    if k >= 0 && Truthy(d.persons[k].username) {
      var f := Filter(d.users, UserNameIsNot(d.persons[k].username));
      assert DeletePersonSpec(d, id).0.users == f;
      forall u | u in d.users && u.id != id
        ensures u in f
      {
        if Some(u.username) == d.persons[k].username {
          LoginNamedOwnedBy(d, d.persons[k], u);
        }
      }
    }
  }

  /** Accounts keep their logins when persons are only swept and logins of other ids kept. */
  lemma AccountsSurviveSweep(d: DataStore, d': DataStore, id: Id)
    requires AccountsHaveLogins(d)
    requires forall q :: q in d'.persons ==> exists p :: p in d.persons && p.id != id && q == Sweep(p, id)
    requires forall u :: u in d.users && u.id != id ==> u in d'.users
    ensures AccountsHaveLogins(d')
  {
    forall q | q in d'.persons && HasAccount(q)
      ensures HasLogin(d', q)
    {
      var p :| p in d.persons && p.id != id && q == Sweep(p, id);
      assert HasAccount(p);
      var u :| u in d.users && HoldsLogin(p, u);
      assert u in d'.users && HoldsLogin(q, u);
    }
  }

  /** Every remaining account keeps its login. */
  lemma DeleteKeepsAccountsHaveLogins(d: DataStore, id: Id)
    requires Consistent(d)
    ensures AccountsHaveLogins(DeletePersonSpec(d, id).0)
  {
    DeleteRemovesPersonAndLinks(d, id);
    DeleteKeepsOtherLogins(d, id);
    AccountsSurviveSweep(d, DeletePersonSpec(d, id).0, id);
  }

  /** `deletePerson` keeps the invariant. */
  lemma DeleteKeepsConsistent(d: DataStore, id: Id)
    requires Consistent(d)
    ensures Consistent(DeletePersonSpec(d, id).0)
  {
    var k := FirstIndex(d.persons, PersonIdIs(id));
    DeleteKeepsUniquePersons(d, id);
    if k >= 0 && Truthy(d.persons[k].username) {
      FilterPairwise(d.users, UserNameIsNot(d.persons[k].username), DistinctLoginNames);
    }
    DeleteKeepsLoginsOwned(d, id);
    DeleteKeepsAccountsHaveLogins(d, id);
  }

  /** The ids of persons swept after removing `id` are the old ids without `id`. */
  lemma IdSetOfSwept(ps: seq<Person>, ps': seq<Person>, id: Id)
    requires forall q :: q in ps' ==> exists p :: p in ps && p.id != id && q == Sweep(p, id)
    requires forall p :: p in ps && p.id != id ==> Sweep(p, id) in ps'
    ensures IdSet(ps') == IdSet(ps) - {id}
  {
    forall x | x in IdSet(ps) - {id} ensures x in IdSet(ps') {
      var p :| p in ps && p.id == x;
      assert Sweep(p, id) in ps';
    }
    forall x | x in IdSet(ps') ensures x in IdSet(ps) - {id} {
      var q :| q in ps' && q.id == x;
      var p :| p in ps && p.id != id && q == Sweep(p, id);
      assert p.id in IdSet(ps);
    }
  }

  /** With `id` deleted, the remaining ids are the old ones without `id`. */
  lemma DeleteIdSet(d: DataStore, id: Id)
    ensures IdSet(DeletePersonSpec(d, id).0.persons) == IdSet(d.persons) - {id}
  {
    DeleteRemovesPersonAndLinks(d, id);
    IdSetOfSwept(d.persons, DeletePersonSpec(d, id).0.persons, id);
  }

  /** Deleting a person leaves no dangling link behind if there was none before. */
  lemma DeleteKeepsRelationsClosed(d: DataStore, id: Id)
    requires RelationsClosed(d.persons)
    ensures RelationsClosed(DeletePersonSpec(d, id).0.persons)
  {
    var ps' := DeletePersonSpec(d, id).0.persons;
    DeleteRemovesPersonAndLinks(d, id);
    DeleteIdSet(d, id);
    forall q | q in ps'
      ensures PointsInto(q, IdSet(ps'))
    {
      var p :| p in d.persons && p.id != id && q == Sweep(p, id);
      SweepPointsInto(p, id, IdSet(d.persons));
    }
  }

  /** After the sweep a person links only to ids other than the deleted one. */
  lemma SweepPointsInto(p: Person, id: Id, ids: set<Id>)
    requires PointsInto(p, ids)
    ensures PointsInto(Sweep(p, id), ids - {id})
  {
  }

  // ---------------------------------------------------------------------------
  // updatePerson
  // ---------------------------------------------------------------------------

  /** Replacing person `i` by `np` and the logins by `users'` keeps the invariant when the
      id stays, the username stays, disappears or is free, the logins of the other persons
      are kept, and every new or changed login is `np`'s own. */
  lemma ReplaceKeepsConsistent(d: DataStore, i: int, np: Person, users': seq<UserRecord>)
    requires Consistent(d) && 0 <= i < |d.persons|
    requires np.id == d.persons[i].id
    requires np.username == d.persons[i].username || !Truthy(np.username) || NameFree(d, np.username)
    requires Pairwise(users', DistinctLoginNames)
    requires forall u :: u in users' ==>
               u.username != "" &&
               ((u in d.users && !HoldsLogin(d.persons[i], u)) || Owns(np, u))
    requires forall u :: u in d.users && !HoldsLogin(d.persons[i], u) ==> u in users'
    requires HasAccount(np) ==> exists u :: u in users' && HoldsLogin(np, u)
    ensures Consistent(DataStore(users', d.persons[i := np]))
  {
    var cur := d.persons[i];
    var ps' := d.persons[i := np];
    var d' := DataStore(users', ps');
    forall k | 0 <= k < |d.persons| && k != i
      ensures DistinctIds(d.persons[k], np) && DistinctIds(np, d.persons[k])
      ensures DistinctPersonNames(d.persons[k], np) && DistinctPersonNames(np, d.persons[k])
    {
      assert DistinctIds(d.persons[k], cur) && DistinctPersonNames(d.persons[k], cur);
      assert DistinctPersonNames(cur, d.persons[k]);
      assert d.persons[k] in d.persons;
    }
    PairwiseReplace(d.persons, i, np, DistinctIds);
    PairwiseReplace(d.persons, i, np, DistinctPersonNames);
    // every person other than `cur` stays in place
    assert forall q :: q in d.persons && q != cur ==> q in ps' by {
      forall q | q in d.persons && q != cur ensures q in ps' {
        var k :| 0 <= k < |d.persons| && d.persons[k] == q;
        assert ps'[k] == q;
      }
    }
    forall u | u in users'
      ensures exists q :: q in ps' && Owns(q, u)
    {
      if u in d.users && !HoldsLogin(cur, u) {
        var q :| q in d.persons && Owns(q, u);
        assert q in ps';
      } else {
        assert ps'[i] == np;
      }
    }
    forall q | q in ps' && HasAccount(q)
      ensures HasLogin(d', q)
    {
      var k :| 0 <= k < |ps'| && ps'[k] == q;
      if k != i {
        assert q in d.persons;
        var u :| u in d.users && HoldsLogin(q, u);
        assert DistinctIds(q, cur);
        assert u in users';
      }
    }
  }

  /** The conditions under which `updatePerson` of the person at index `i` keeps the
      invariant: a new username is not taken, a rename does not come with a new password in
      the same call, and a person with role "none" that still carries a username is not
      given a role back. */
  ghost predicate SafeAt(d: DataStore, i: int, u: PersonUpdate)
    requires 0 <= i < |d.persons|
  {
    var cur := d.persons[i];
    var merged := Merge(cur, u);
    && (Truthy(u.newUsername) && u.newUsername != cur.username ==> NameFree(d, u.newUsername))
    && !(Truthy(u.newPassword) && IsRename(cur, merged))
    && !(cur.role == RoleNone && Truthy(cur.username) && merged.role != RoleNone)
  }

  ghost predicate SafeUpdate(d: DataStore, id: Id, u: PersonUpdate)
  {
    var i := FirstIndex(d.persons, PersonIdIs(id));
    i >= 0 ==> SafeAt(d, i, u)
  }

  /** The password step changes at most the current person's own login, and that one only
      when the username is not being changed in the same call. */
  lemma RotateTouchesOnlyOwnLogin(d: DataStore, i: int, u: PersonUpdate, hash: string -> Hash)
    requires Consistent(d) && 0 <= i < |d.persons|
    requires Truthy(u.newUsername) && u.newUsername != d.persons[i].username ==> NameFree(d, u.newUsername)
    ensures var cur := d.persons[i];
      var merged := Merge(cur, u);
      var users1 := RotatePassword(merged, d.users, hash, u.newPassword).1;
      && |users1| == |d.users|
      && (forall k :: 0 <= k < |d.users| && !HoldsLogin(cur, d.users[k]) ==> users1[k] == d.users[k])
      && (forall k :: 0 <= k < |d.users| && HoldsLogin(cur, d.users[k]) ==>
            users1[k] == if Truthy(u.newPassword) && merged.username == cur.username
                         then d.users[k].(password := hash(u.newPassword.value))
                         else d.users[k])
  {
    var cur := d.persons[i];
    var merged := Merge(cur, u);
    if Truthy(u.newPassword) {
      var j := FirstIndex(d.users, UserNameIs(merged.username));
      if j >= 0 {
        assert merged.username == Some(d.users[j].username);
        if merged.username != cur.username {
          FreeNameHasNoLogin(d, u.newUsername);
          assert false;
        }
        LoginNamedOwnedBy(d, cur, d.users[j]);
      }
    }
  }

  /** The store `updatePerson` leaves behind when the person is found at index `i`. */
  ghost function UpdatedAt(d: DataStore, hash: string -> Hash, i: int, u: PersonUpdate): DataStore
    requires 0 <= i < |d.persons|
  {
    var cur := d.persons[i];
    var rot := RotatePassword(Merge(cur, u), d.users, hash, u.newPassword);
    var fin := AccountTransition(cur, rot.0, rot.1, hash);
    DataStore(fin.1, d.persons[i := fin.0])
  }

  /** The logins named like `cur` all carry `cur`'s id, so filtering them out keeps every
      login with another id. */
  lemma RemovalKeepsOtherLogins(d: DataStore, cur: Person, users1: seq<UserRecord>)
    requires Consistent(d) && cur in d.persons
    requires forall v :: v in users1 && v.id != cur.id ==> v in d.users
    ensures var f := Filter(users1, UserNameIsNot(cur.username));
      forall v :: v in users1 && v.id != cur.id ==> v in f
  {
    forall v | v in users1 && v.id != cur.id
      ensures Some(v.username) != cur.username
    {
      if Some(v.username) == cur.username {
        LoginNamedOwnedBy(d, cur, v);
      }
    }
  }

  /** When the logins named like `cur` carry `cur`'s id, renaming the first of them keeps
      every login with another id. */
  lemma RenameKeepsOtherLogins(cur: Person, name: string, users1: seq<UserRecord>)
    requires forall k :: 0 <= k < |users1| && Some(users1[k].username) == cur.username ==> users1[k].id == cur.id
    ensures var j := FirstIndex(users1, UserNameIs(cur.username));
      var users' := if j < 0 then users1 else users1[j := users1[j].(username := name)];
      && (forall v :: v in users' && v.id != cur.id ==> v in users1)
      && (forall v :: v in users1 && v.id != cur.id ==> v in users')
  {
    var j := FirstIndex(users1, UserNameIs(cur.username));
    if j >= 0 {
      var users' := users1[j := users1[j].(username := name)];
      assert UserNameIs(cur.username)(users1[j]);
      forall v | v in users' && v.id != cur.id
        ensures v in users1
      {
        var k :| 0 <= k < |users'| && users'[k] == v;
        assert users1[k] == v;
      }
      forall v | v in users1 && v.id != cur.id
        ensures v in users'
      {
        var k :| 0 <= k < |users1| && users1[k] == v;
        assert users'[k] == v;
      }
    }
  }

  /** The account transition adds, changes or removes only logins carrying `cur`'s id,
      provided the logins it starts from differ from the stored ones only there. */
  lemma TransitionKeepsOtherLogins(d: DataStore, cur: Person, upd: Person, users1: seq<UserRecord>,
                                   hash: string -> Hash)
    requires Consistent(d) && cur in d.persons
    requires upd.id == cur.id && (Truthy(cur.username) ==> Truthy(upd.username))
    requires |users1| == |d.users|
    requires forall k :: 0 <= k < |d.users| ==>
               users1[k].id == d.users[k].id && users1[k].username == d.users[k].username
    requires forall k :: 0 <= k < |d.users| && d.users[k].id != cur.id ==> users1[k] == d.users[k]
    ensures var users' := AccountTransition(cur, upd, users1, hash).1;
      && (forall v :: v in d.users && v.id != cur.id ==> v in users')
      && (forall v :: v in users' && v.id != cur.id ==> v in d.users)
  {
    var users' := AccountTransition(cur, upd, users1, hash).1;
    forall v | v in d.users && v.id != cur.id
      ensures v in users1
    {
      var k :| 0 <= k < |d.users| && d.users[k] == v;
      assert users1[k] == v;
    }
    forall v | v in users1 && v.id != cur.id
      ensures v in d.users
    {
      var k :| 0 <= k < |users1| && users1[k] == v;
      assert users1[k] == d.users[k];
    }
    if IsAccountRemoval(cur, upd) {
      RemovalKeepsOtherLogins(d, cur, users1);
    } else if !IsNewAccount(cur, upd) && IsRename(cur, upd) {
      forall k | 0 <= k < |users1| && Some(users1[k].username) == cur.username
        ensures users1[k].id == cur.id
      {
        assert d.users[k] in d.users;
        LoginNamedOwnedBy(d, cur, d.users[k]);
      }
      RenameKeepsOtherLogins(cur, upd.username.value, users1);
      var j := FirstIndex(users1, UserNameIs(cur.username));
      assert users' == if j < 0 then users1 else users1[j := users1[j].(username := upd.username.value)];
    }
  }

  /** When no other person uses the new username, `updatePerson` of the person at index `i`
      keeps every login of every other person, and adds none. */
  lemma UpdateKeepsOtherLogins(d: DataStore, hash: string -> Hash, i: int, u: PersonUpdate)
    requires Consistent(d) && 0 <= i < |d.persons|
    requires Truthy(u.newUsername) && u.newUsername != d.persons[i].username ==> NameFree(d, u.newUsername)
    ensures var users' := UpdatedAt(d, hash, i, u).users;
      && (forall v :: v in d.users && v.id != d.persons[i].id ==> v in users')
      && (forall v :: v in users' && v.id != d.persons[i].id ==> v in d.users)
  {
    var cur := d.persons[i];
    var rot := RotatePassword(Merge(cur, u), d.users, hash, u.newPassword);
    RotateTouchesOnlyOwnLogin(d, i, u, hash);
    assert cur in d.persons;
    TransitionKeepsOtherLogins(d, cur, rot.0, rot.1, hash);
  }

  /** A new account: the person had no username, so held no login, and the appended login
      carries a username nobody uses. */
  lemma UpdateNewAccountKeepsConsistent(d: DataStore, hash: string -> Hash, i: int, u: PersonUpdate)
    requires Consistent(d) && 0 <= i < |d.persons| && SafeAt(d, i, u)
    requires IsNewAccount(d.persons[i], Merge(d.persons[i], u))
    ensures Consistent(UpdatedAt(d, hash, i, u))
  {
    var cur := d.persons[i];
    var rot := RotatePassword(Merge(cur, u), d.users, hash, u.newPassword);
    var fin := AccountTransition(cur, rot.0, rot.1, hash);
    RotateTouchesOnlyOwnLogin(d, i, u, hash);
    assert rot.1 == d.users;
    var np := fin.0;
    var login := UserRecord(np.id, np.username.value, np.passwordHash.value);
    assert fin.1 == d.users + [login];
    FreeNameHasNoLogin(d, u.newUsername);
    forall k | 0 <= k < |d.users|
      ensures DistinctLoginNames(d.users[k], login) && DistinctLoginNames(login, d.users[k])
    {
      assert d.users[k] in d.users;
    }
    PairwiseAppend(d.users, login, DistinctLoginNames);
    ReplaceKeepsConsistent(d, i, np, fin.1);
  }

  /** The password step keeps every login's username, hence their uniqueness. */
  lemma RotateKeepsLoginNames(d: DataStore, i: int, u: PersonUpdate, hash: string -> Hash)
    requires Consistent(d) && 0 <= i < |d.persons|
    requires Truthy(u.newUsername) && u.newUsername != d.persons[i].username ==> NameFree(d, u.newUsername)
    ensures Pairwise(RotatePassword(Merge(d.persons[i], u), d.users, hash, u.newPassword).1, DistinctLoginNames)
  {
    var users1 := RotatePassword(Merge(d.persons[i], u), d.users, hash, u.newPassword).1;
    RotateTouchesOnlyOwnLogin(d, i, u, hash);
    assert forall k :: 0 <= k < |d.users| ==> users1[k].username == d.users[k].username;
    forall j, k | 0 <= j < |users1| && 0 <= k < |users1| && j != k
      ensures DistinctLoginNames(users1[j], users1[k])
    {
      assert DistinctLoginNames(d.users[j], d.users[k]);
    }
  }

  /** If every login named like `cur` is `cur`'s own, and `users1` changes no username and no
      login but `cur`'s, filtering out the logins named like `cur` leaves exactly the logins
      that are not `cur`'s. */
  lemma FilterOwnLogin(users: seq<UserRecord>, cur: Person, users1: seq<UserRecord>)
    requires forall k :: 0 <= k < |users| && Some(users[k].username) == cur.username ==> HoldsLogin(cur, users[k])
    requires |users1| == |users|
    requires forall k :: 0 <= k < |users| ==> users1[k].username == users[k].username
    requires forall k :: 0 <= k < |users| && !HoldsLogin(cur, users[k]) ==> users1[k] == users[k]
    ensures var f := Filter(users1, UserNameIsNot(cur.username));
      && (forall v :: v in f ==> v in users && !HoldsLogin(cur, v))
      && (forall v :: v in users && !HoldsLogin(cur, v) ==> v in f)
  {
    var f := Filter(users1, UserNameIsNot(cur.username));
    forall v | v in f
      ensures v in users && !HoldsLogin(cur, v)
    {
      var k :| 0 <= k < |users1| && users1[k] == v;
      assert !HoldsLogin(cur, users[k]);
    }
    forall v | v in users && !HoldsLogin(cur, v)
      ensures v in f
    {
      var k :| 0 <= k < |users| && users[k] == v;
      assert users1[k] == v;
    }
  }

  /** Filtering out the logins named like the person removes that person's login and no other. */
  lemma RemovalFiltersOwnLogin(d: DataStore, i: int, u: PersonUpdate, hash: string -> Hash)
    requires Consistent(d) && 0 <= i < |d.persons|
    requires Truthy(u.newUsername) && u.newUsername != d.persons[i].username ==> NameFree(d, u.newUsername)
    ensures var cur := d.persons[i];
      var f := Filter(RotatePassword(Merge(cur, u), d.users, hash, u.newPassword).1, UserNameIsNot(cur.username));
      && (forall v :: v in f ==> v in d.users && !HoldsLogin(cur, v))
      && (forall v :: v in d.users && !HoldsLogin(cur, v) ==> v in f)
  {
    var cur := d.persons[i];
    var users1 := RotatePassword(Merge(cur, u), d.users, hash, u.newPassword).1;
    RotateTouchesOnlyOwnLogin(d, i, u, hash);
    assert forall k :: 0 <= k < |d.users| ==> users1[k].username == d.users[k].username;
    forall k | 0 <= k < |d.users| && Some(d.users[k].username) == cur.username
      ensures HoldsLogin(cur, d.users[k])
    {
      LoginNamedOwnedBy(d, cur, d.users[k]);
    }
    FilterOwnLogin(d.users, cur, users1);
  }

  /** An account removal: exactly the person's own login is filtered out. */
  lemma UpdateRemovalKeepsConsistent(d: DataStore, hash: string -> Hash, i: int, u: PersonUpdate)
    requires Consistent(d) && 0 <= i < |d.persons| && SafeAt(d, i, u)
    requires IsAccountRemoval(d.persons[i], Merge(d.persons[i], u))
    ensures Consistent(UpdatedAt(d, hash, i, u))
  {
    var cur := d.persons[i];
    var rot := RotatePassword(Merge(cur, u), d.users, hash, u.newPassword);
    var fin := AccountTransition(cur, rot.0, rot.1, hash);
    RotateKeepsLoginNames(d, i, u, hash);
    RemovalFiltersOwnLogin(d, i, u, hash);
    var keep := UserNameIsNot(cur.username);
    assert fin.1 == Filter(rot.1, keep);
    FilterPairwise(rot.1, keep, DistinctLoginNames);
    assert forall v :: v in d.users ==> v.username != "";
    ReplaceKeepsConsistent(d, i, fin.0, fin.1);
  }

  /** A rename: the person's own login, if any, takes the new username, which nobody uses. */
  lemma UpdateRenameKeepsConsistent(d: DataStore, hash: string -> Hash, i: int, u: PersonUpdate)
    requires Consistent(d) && 0 <= i < |d.persons| && SafeAt(d, i, u)
    requires IsRename(d.persons[i], Merge(d.persons[i], u))
    ensures Consistent(UpdatedAt(d, hash, i, u))
  {
    var cur := d.persons[i];
    var np := Merge(cur, u);
    var fin := AccountTransition(cur, np, d.users, hash);
    assert RotatePassword(np, d.users, hash, u.newPassword) == (np, d.users);
    assert UpdatedAt(d, hash, i, u) == DataStore(fin.1, d.persons[i := np]);
    FreeNameHasNoLogin(d, u.newUsername);
    var j := FirstIndex(d.users, UserNameIs(cur.username));
    if j >= 0 {
      LoginNamedOwnedBy(d, cur, d.users[j]);
      var renamed := d.users[j].(username := np.username.value);
      assert fin.1 == d.users[j := renamed];
      forall k | 0 <= k < |d.users| && k != j
        ensures DistinctLoginNames(d.users[k], renamed) && DistinctLoginNames(renamed, d.users[k])
        ensures !HoldsLogin(cur, d.users[k])
      {
        assert d.users[k] in d.users;
        assert DistinctLoginNames(d.users[k], d.users[j]);
      }
      PairwiseReplace(d.users, j, renamed, DistinctLoginNames);
      assert Owns(np, renamed);
      assert forall v :: v in d.users ==> v.username != "";
      ReplaceKeepsConsistent(d, i, np, fin.1);
    } else {
      assert fin.1 == d.users;
      assert !HasLogin(d, cur);
      ReplaceKeepsConsistent(d, i, np, fin.1);
    }
  }

  /** With no account change, every login after the password step is either another
      person's untouched login or the updated person's own, in step with its new hash. */
  lemma KeepingAccountLogins(d: DataStore, hash: string -> Hash, i: int, u: PersonUpdate)
    requires Consistent(d) && 0 <= i < |d.persons| && SafeAt(d, i, u)
    requires var cur := d.persons[i]; var merged := Merge(cur, u);
      !IsNewAccount(cur, merged) && !IsAccountRemoval(cur, merged) && !IsRename(cur, merged)
    ensures var cur := d.persons[i];
      var rot := RotatePassword(Merge(cur, u), d.users, hash, u.newPassword);
      && (forall v :: v in rot.1 ==>
            v.username != "" && ((v in d.users && !HoldsLogin(cur, v)) || Owns(rot.0, v)))
      && (forall v :: v in d.users && !HoldsLogin(cur, v) ==> v in rot.1)
  {
    var cur := d.persons[i];
    var rot := RotatePassword(Merge(cur, u), d.users, hash, u.newPassword);
    RotateTouchesOnlyOwnLogin(d, i, u, hash);
    forall v | v in rot.1
      ensures v.username != "" && ((v in d.users && !HoldsLogin(cur, v)) || Owns(rot.0, v))
    {
      var k :| 0 <= k < |rot.1| && rot.1[k] == v;
      assert d.users[k] in d.users;
      if HoldsLogin(cur, d.users[k]) {
        LoginNamedOwnedBy(d, cur, d.users[k]);
      }
    }
    forall v | v in d.users && !HoldsLogin(cur, v)
      ensures v in rot.1
    {
      var k :| 0 <= k < |d.users| && d.users[k] == v;
      assert rot.1[k] == v;
    }
  }

  /** With no account change, a person that should have a login still holds one after the
      password step. */
  lemma KeepingAccountHoldsLogin(d: DataStore, hash: string -> Hash, i: int, u: PersonUpdate)
    requires Consistent(d) && 0 <= i < |d.persons| && SafeAt(d, i, u)
    requires var cur := d.persons[i]; var merged := Merge(cur, u);
      !IsNewAccount(cur, merged) && !IsAccountRemoval(cur, merged) && !IsRename(cur, merged)
    ensures var rot := RotatePassword(Merge(d.persons[i], u), d.users, hash, u.newPassword);
      HasAccount(rot.0) ==> exists v :: v in rot.1 && HoldsLogin(rot.0, v)
  {
    var cur := d.persons[i];
    var rot := RotatePassword(Merge(cur, u), d.users, hash, u.newPassword);
    if HasAccount(rot.0) {
      assert HasAccount(cur);
      assert cur in d.persons;
      var v :| v in d.users && HoldsLogin(cur, v);
      var k :| 0 <= k < |d.users| && d.users[k] == v;
      RotateTouchesOnlyOwnLogin(d, i, u, hash);
      assert HoldsLogin(rot.0, rot.1[k]);
    }
  }

  /** No account change: the person keeps its username, and its login (if any) at most gets
      the new hash the person also gets. */
  lemma UpdateKeepingAccountKeepsConsistent(d: DataStore, hash: string -> Hash, i: int, u: PersonUpdate)
    requires Consistent(d) && 0 <= i < |d.persons| && SafeAt(d, i, u)
    requires var cur := d.persons[i]; var merged := Merge(cur, u);
      !IsNewAccount(cur, merged) && !IsAccountRemoval(cur, merged) && !IsRename(cur, merged)
    ensures Consistent(UpdatedAt(d, hash, i, u))
  {
    var cur := d.persons[i];
    var rot := RotatePassword(Merge(cur, u), d.users, hash, u.newPassword);
    assert UpdatedAt(d, hash, i, u) == DataStore(rot.1, d.persons[i := rot.0]);
    RotateKeepsLoginNames(d, i, u, hash);
    KeepingAccountLogins(d, hash, i, u);
    KeepingAccountHoldsLogin(d, hash, i, u);
    ReplaceKeepsConsistent(d, i, rot.0, rot.1);
  }

  /** `updatePerson` keeps the invariant under `SafeUpdate`; an unknown id changes nothing. */
  lemma UpdatePersonKeepsConsistent(d: DataStore, hash: string -> Hash, id: Id, u: PersonUpdate)
    requires Consistent(d) && SafeUpdate(d, id, u)
    ensures Consistent(UpdatePersonSpec(d, hash, id, u).0)
  {
    var i := FirstIndex(d.persons, PersonIdIs(id));
    if i >= 0 {
      var cur := d.persons[i];
      var merged := Merge(cur, u);
      assert UpdatePersonSpec(d, hash, id, u).0 == UpdatedAt(d, hash, i, u);
      if IsNewAccount(cur, merged) {
        UpdateNewAccountKeepsConsistent(d, hash, i, u);
      } else if IsAccountRemoval(cur, merged) {
        UpdateRemovalKeepsConsistent(d, hash, i, u);
      } else if IsRename(cur, merged) {
        UpdateRenameKeepsConsistent(d, hash, i, u);
      } else {
        UpdateKeepingAccountKeepsConsistent(d, hash, i, u);
      }
    }
  }

  /** An update that supplies no key. */
  const NoChange := PersonUpdate(Keep, Keep, Keep, Keep, Keep, Keep, Keep, Keep, Keep, Keep,
                                 None, None, None, None)

  /** A person with only a first name, a role, a username and a hash. */
  function Account(id: Id, first: string, role: Role, username: Option<string>, h: Option<Hash>): Person
  {
    Person(id, Some(first), None, None, None, None, None, None, None, None, None, role, username, h, [])
  }

  /** The path `SafeUpdate` excludes first: a rename together with a new password. The password
      step looks the login up under the new username, finds none, and the renamed login keeps
      the old hash while the person gets the new one. */
  lemma RenameWithPasswordBreaksConsistent(hash: string -> Hash)
    requires hash("old") != hash("new")
    ensures
      var d := DataStore([UserRecord("1", "ali", hash("old"))],
                         [Account("1", "Ali", RoleUser, Some("ali"), Some(hash("old")))]);
      var u := NoChange.(newUsername := Some("ali2"), newPassword := Some("new"));
      var (d', r) := UpdatePersonSpec(d, hash, "1", u);
      && Consistent(d)
      && r.Some? && r.value.username == Some("ali2") && r.value.passwordHash == Some(hash("new"))
      && d'.users == [UserRecord("1", "ali2", hash("old"))]
      && !Consistent(d')
  {
    var p := Account("1", "Ali", RoleUser, Some("ali"), Some(hash("old")));
    var d := DataStore([UserRecord("1", "ali", hash("old"))], [p]);
    var u := NoChange.(newUsername := Some("ali2"), newPassword := Some("new"));
    assert d.persons[0] in d.persons && Owns(p, d.users[0]);
    assert d.users[0] in d.users && HoldsLogin(p, d.users[0]);
    assert FirstIndex(d.persons, PersonIdIs("1")) == 0;
    assert FirstIndex(d.users, UserNameIs(Some("ali2"))) == -1;
    assert FirstIndex(d.users, UserNameIs(Some("ali"))) == 0;
    var (d', r) := UpdatePersonSpec(d, hash, "1", u);
    assert d'.persons[0] in d'.persons;
    assert d'.users[0] in d'.users;
  }

  /** The path `SafeUpdate` excludes second: a person with role "none" that kept its username
      is given a role again. Neither a new account nor a rename is detected, so no login is
      created for it. */
  lemma ReactivationBreaksConsistent(hash: string -> Hash)
    ensures
      var d := DataStore([], [Account("2", "Fatima", RoleNone, Some("fatima"), None)]);
      var (d', r) := UpdatePersonSpec(d, hash, "2", NoChange.(role := Some(RoleUser)));
      && Consistent(d)
      && r.Some? && HasAccount(r.value) && d'.users == []
      && !Consistent(d')
  {
    var d := DataStore([], [Account("2", "Fatima", RoleNone, Some("fatima"), None)]);
    assert FirstIndex(d.persons, PersonIdIs("2")) == 0;
    var (d', r) := UpdatePersonSpec(d, hash, "2", NoChange.(role := Some(RoleUser)));
    assert d'.persons[0] in d'.persons;
  }

  /** The path `SafeUpdate` excludes third: a new username that another person already uses
      gives two persons, and two logins, the same username. */
  lemma TakenUsernameBreaksConsistent(hash: string -> Hash)
    ensures
      var d := DataStore([UserRecord("1", "ali", hash("old"))],
                         [Account("1", "Ali", RoleUser, Some("ali"), Some(hash("old"))),
                          Account("2", "Omar", RoleUser, None, None)]);
      var (d', r) := UpdatePersonSpec(d, hash, "2", NoChange.(newUsername := Some("ali")));
      && Consistent(d)
      && r.Some? && |d'.users| == 2 && d'.users[0].username == d'.users[1].username
      && !Consistent(d')
  {
    var d := DataStore([UserRecord("1", "ali", hash("old"))],
                       [Account("1", "Ali", RoleUser, Some("ali"), Some(hash("old"))),
                        Account("2", "Omar", RoleUser, None, None)]);
    assert d.persons[0] in d.persons && Owns(d.persons[0], d.users[0]);
    assert d.users[0] in d.users && HoldsLogin(d.persons[0], d.users[0]);
    assert FirstIndex(d.persons, PersonIdIs("2")) == 1;
    var (d', r) := UpdatePersonSpec(d, hash, "2", NoChange.(newUsername := Some("ali")));
    assert !DistinctLoginNames(d'.users[0], d'.users[1]);
  }

  /** An admin "admin" and a user "omar", each with its login. */
  function TwoAccounts(hash: string -> Hash): DataStore
  {
    DataStore([UserRecord("1", "admin", hash("a")), UserRecord("2", "omar", hash("o"))],
              [Account("1", "Ahmad", RoleAdmin, Some("admin"), Some(hash("a"))),
               Account("2", "Omar", RoleUser, Some("omar"), Some(hash("o")))])
  }

  lemma TwoAccountsConsistent(hash: string -> Hash)
    ensures Consistent(TwoAccounts(hash))
  {
    var d := TwoAccounts(hash);
    assert d.persons[0] in d.persons && Owns(d.persons[0], d.users[0]);
    assert d.persons[1] in d.persons && Owns(d.persons[1], d.users[1]);
    assert d.users[0] in d.users && HoldsLogin(d.persons[0], d.users[0]);
    assert d.users[1] in d.users && HoldsLogin(d.persons[1], d.users[1]);
  }

  /** The path `SafeUpdate` excludes first, with a taken username: a new username that is
      another person's, together with a new password, overwrites the hash of that other
      person's login, while that person's record keeps the old hash. */
  lemma TakenUsernameWithPasswordOverwritesLogin(hash: string -> Hash)
    ensures
      var d := TwoAccounts(hash);
      var (d', r) := UpdatePersonSpec(d, hash, "2", NoChange.(newUsername := Some("admin"), newPassword := Some("x")));
      && r.Some?
      && d'.persons == [d.persons[0], r.value]
      && d'.users == [UserRecord("1", "admin", hash("x")), UserRecord("2", "admin", hash("o"))]
  {
    var d := TwoAccounts(hash);
    assert FirstIndex(d.persons, PersonIdIs("2")) == 1;
    assert FirstIndex(d.users, UserNameIs(Some("admin"))) == 0;
    var users1 := [UserRecord("1", "admin", hash("x")), UserRecord("2", "omar", hash("o"))];
    assert FirstIndex(users1, UserNameIs(Some("omar"))) == 1;
  }

  /** The same two accounts, with the caller's login "omar" stored before the admin's. */
  function CallerFirst(hash: string -> Hash): DataStore
  {
    DataStore([UserRecord("2", "omar", hash("o")), UserRecord("1", "admin", hash("a"))],
              TwoAccounts(hash).persons)
  }

  lemma CallerFirstConsistent(hash: string -> Hash)
    ensures Consistent(CallerFirst(hash))
  {
    var d := CallerFirst(hash);
    assert d.persons[0] in d.persons && Owns(d.persons[0], d.users[1]);
    assert d.persons[1] in d.persons && Owns(d.persons[1], d.users[0]);
    assert d.users[1] in d.users && HoldsLogin(d.persons[0], d.users[1]);
    assert d.users[0] in d.users && HoldsLogin(d.persons[1], d.users[0]);
  }

  /** The same update when the caller's login comes first: the admin's hash is still
      overwritten, but the rename puts the admin's username on the caller's own login,
      ahead of the admin's and with the caller's old hash. */
  lemma TakenUsernameWithPasswordCallerFirst(hash: string -> Hash)
    ensures
      var d := CallerFirst(hash);
      var (d', r) := UpdatePersonSpec(d, hash, "2", NoChange.(newUsername := Some("admin"), newPassword := Some("x")));
      && r.Some?
      && d'.persons == [d.persons[0], r.value]
      && d'.users == [UserRecord("2", "admin", hash("o")), UserRecord("1", "admin", hash("x"))]
  {
    var d := CallerFirst(hash);
    assert FirstIndex(d.persons, PersonIdIs("2")) == 1;
    assert FirstIndex(d.users, UserNameIs(Some("admin"))) == 1;
    var users1 := [UserRecord("2", "omar", hash("o")), UserRecord("1", "admin", hash("x"))];
    assert FirstIndex(users1, UserNameIs(Some("omar"))) == 0;
  }

  // ---------------------------------------------------------------------------
  // updateUserPassword
  // ---------------------------------------------------------------------------

  /** Giving login `j` and the person `m` that holds it the same new hash keeps the invariant. */
  lemma RenewLoginKeepsConsistent(d: DataStore, j: int, m: int, h: Hash)
    requires Consistent(d) && 0 <= j < |d.users| && 0 <= m < |d.persons|
    requires HoldsLogin(d.persons[m], d.users[j])
    ensures Consistent(DataStore(d.users[j := d.users[j].(password := h)],
                                 d.persons[m := d.persons[m].(passwordHash := Some(h))]))
  {
    var q := d.persons[m];
    var login := d.users[j];
    LoginNamedOwnedBy(d, q, login);
    var np := q.(passwordHash := Some(h));
    var renewed := login.(password := h);
    var users' := d.users[j := renewed];
    forall k | 0 <= k < |d.users| && k != j
      ensures DistinctLoginNames(d.users[k], renewed) && DistinctLoginNames(renewed, d.users[k])
      ensures !HoldsLogin(q, d.users[k])
    {
      assert DistinctLoginNames(d.users[k], login);
    }
    PairwiseReplace(d.users, j, renewed, DistinctLoginNames);
    assert forall v :: v in d.users ==> v.username != "";
    forall v | v in users'
      ensures v.username != "" && ((v in d.users && !HoldsLogin(q, v)) || Owns(np, v))
    {
      var k :| 0 <= k < |users'| && users'[k] == v;
      assert d.users[k] in d.users;
    }
    forall v | v in d.users && !HoldsLogin(q, v)
      ensures v in users'
    {
      var k :| 0 <= k < |d.users| && d.users[k] == v;
      assert users'[k] == v;
    }
    assert HoldsLogin(np, users'[j]);
    ReplaceKeepsConsistent(d, m, np, users');
  }

  /** Changing a password keeps the invariant, and the login and its person end with the
      same new hash. */
  lemma UpdateUserPasswordKeepsConsistent(d: DataStore, name: string, h: Hash)
    requires Consistent(d)
    ensures var (d', ok) := UpdateUserPasswordSpec(d, name, h);
      && Consistent(d')
      && (ok ==> exists k :: 0 <= k < |d'.users| && d'.users[k].username == name && d'.users[k].password == h)
      && (ok ==> exists p :: p in d'.persons && p.username == Some(name) && p.passwordHash == Some(h))
  {
    var (d', ok) := UpdateUserPasswordSpec(d, name, h);
    var j := FirstIndex(d.users, UserNameIs(Some(name)));
    if j >= 0 {
      var login := d.users[j];
      assert login in d.users;
      var q :| q in d.persons && Owns(q, login);
      var m := FirstIndex(d.persons, PersonNameIs(Some(name)));
      SameNameSamePerson(d.persons, d.persons[m], q);
      RenewLoginKeepsConsistent(d, j, m, h);
      assert d' == DataStore(d.users[j := login.(password := h)], d.persons[m := q.(passwordHash := Some(h))]);
      assert d'.users[j].username == name;
      assert d'.persons[m] in d'.persons;
    }
  }

  /** In a consistent store, changing the password under a person's username succeeds exactly
      when that person has a role other than "none", and so a login. */
  lemma PasswordChangeSucceedsIffAccount(d: DataStore, p: Person, h: Hash)
    requires Consistent(d) && p in d.persons && Truthy(p.username)
    ensures UpdateUserPasswordSpec(d, p.username.value, h).1 <==> p.role != RoleNone
  {
    var name := p.username.value;
    var ok := UpdateUserPasswordSpec(d, name, h).1;
    LoginIffAccount(d, p);
    if p.role != RoleNone {
      var v :| v in d.users && HoldsLogin(p, v);
      var k :| 0 <= k < |d.users| && d.users[k] == v;
      assert d.users[k].username == name;
    }
    if ok {
      var k :| 0 <= k < |d.users| && d.users[k].username == name;
      assert d.users[k] in d.users;
      LoginNamedOwnedBy(d, p, d.users[k]);
    }
  }

  // ---------------------------------------------------------------------------
  // initSeedData
  // ---------------------------------------------------------------------------

  /** Logins derived from persons with distinct usernames have distinct usernames. */
  lemma {:induction false} UsersFromPersonsDistinct(ps: seq<Person>)
    requires Pairwise(ps, DistinctPersonNames)
    ensures Pairwise(UsersFromPersons(ps), DistinctLoginNames)
  {
    if |ps| > 0 {
      var rest := UsersFromPersons(ps[1..]);
      assert Pairwise(ps[1..], DistinctPersonNames) by {
        forall i, j | 0 <= i < |ps[1..]| && 0 <= j < |ps[1..]| && i != j
          ensures DistinctPersonNames(ps[1..][i], ps[1..][j])
        {
          assert DistinctPersonNames(ps[i + 1], ps[j + 1]);
        }
      }
      UsersFromPersonsDistinct(ps[1..]);
      if Truthy(ps[0].username) && ps[0].passwordHash.Some? {
        var head := LoginOf(ps[0]);
        var t := [head] + rest;
        forall k | 0 <= k < |rest|
          ensures DistinctLoginNames(head, rest[k])
        {
          assert rest[k] in rest;
          var p :| p in ps[1..] && Truthy(p.username) && p.passwordHash.Some? && rest[k] == LoginOf(p);
          var m :| 0 <= m < |ps[1..]| && ps[1..][m] == p;
          assert DistinctPersonNames(ps[0], ps[m + 1]);
        }
        forall i, j | 0 <= i < |t| && 0 <= j < |t| && i != j
          ensures DistinctLoginNames(t[i], t[j])
        {
          if i == 0 {
            assert t[j] == rest[j - 1];
          } else if j == 0 {
            assert t[i] == rest[i - 1];
          } else {
            assert DistinctLoginNames(rest[i - 1], rest[j - 1]);
          }
        }
      }
    }
  }

  /** The seeding rule yields a consistent store whenever the persons have distinct ids and
      usernames and every person with a username has a role and a hash. */
  lemma UsersFromPersonsConsistent(ps: seq<Person>)
    requires Pairwise(ps, DistinctIds) && Pairwise(ps, DistinctPersonNames)
    requires forall p :: p in ps && Truthy(p.username) ==> p.role != RoleNone && p.passwordHash.Some?
    ensures Consistent(DataStore(UsersFromPersons(ps), ps))
  {
    var d := DataStore(UsersFromPersons(ps), ps);
    UsersFromPersonsDistinct(ps);
    forall v | v in d.users
      ensures v.username != "" && exists p :: p in ps && Owns(p, v)
    {
      var p :| p in ps && Truthy(p.username) && p.passwordHash.Some? && v == LoginOf(p);
      assert Owns(p, v);
    }
    forall p | p in ps && HasAccount(p)
      ensures HasLogin(d, p)
    {
      assert LoginOf(p) in d.users;
    }
  }

  /** The seeded persons have distinct ids, whatever their descriptive fields. */
  lemma SeedIdsDistinct(hash: string -> Hash, t: seq<Profile>)
    requires |t| == 12
    ensures Pairwise(SeedFamily(hash, t), DistinctIds)
  {
    var ps := SeedFamily(hash, t);
    forall i, j | 0 <= i < |ps| && 0 <= j < |ps| && i != j
      ensures DistinctIds(ps[i], ps[j])
    {
      assert i == 0 || i == 1 || i == 2 || i == 3 || i == 4 || i == 5 ||
             i == 6 || i == 7 || i == 8 || i == 9 || i == 10 || i == 11;
      assert j == 0 || j == 1 || j == 2 || j == 3 || j == 4 || j == 5 ||
             j == 6 || j == 7 || j == 8 || j == 9 || j == 10 || j == 11;
    }
  }

  /** The seeded persons have distinct usernames, whatever their descriptive fields. */
  lemma SeedUsernamesDistinct(hash: string -> Hash, t: seq<Profile>)
    requires |t| == 12
    ensures Pairwise(SeedFamily(hash, t), DistinctPersonNames)
  {
    var ps := SeedFamily(hash, t);
    forall i, j | 0 <= i < |ps| && 0 <= j < |ps| && i != j
      ensures DistinctPersonNames(ps[i], ps[j])
    {
      assert i == 0 || i == 1 || i == 2 || i == 3 || i == 4 || i == 5 ||
             i == 6 || i == 7 || i == 8 || i == 9 || i == 10 || i == 11;
      assert j == 0 || j == 1 || j == 2 || j == 3 || j == 4 || j == 5 ||
             j == 6 || j == 7 || j == 8 || j == 9 || j == 10 || j == 11;
    }
  }

  /** Every seeded person with a username has a role and a hash. */
  lemma SeedAccountsProvisioned(hash: string -> Hash, t: seq<Profile>)
    requires |t| == 12
    ensures forall p :: p in SeedFamily(hash, t) && Truthy(p.username) ==>
              p.role != RoleNone && p.passwordHash.Some?
  {
    var ps := SeedFamily(hash, t);
    forall p | p in ps && Truthy(p.username)
      ensures p.role != RoleNone && p.passwordHash.Some?
    {
      var k :| 0 <= k < |ps| && ps[k] == p;
      assert k == 0 || k == 1 || k == 2 || k == 3 || k == 4 || k == 5 ||
             k == 6 || k == 7 || k == 8 || k == 9 || k == 10 || k == 11;
    }
  }

  /** The seeded store satisfies the invariant, whatever the members' descriptive fields
      (`SeedStore(hash)` is this store for `t == SeedProfiles()`). */
  lemma SeedConsistent(hash: string -> Hash, t: seq<Profile>)
    requires |t| == 12
    ensures Consistent(DataStore(UsersFromPersons(SeedFamily(hash, t)), SeedFamily(hash, t)))
  {
    SeedIdsDistinct(hash, t);
    SeedUsernamesDistinct(hash, t);
    SeedAccountsProvisioned(hash, t);
    UsersFromPersonsConsistent(SeedFamily(hash, t));
  }

  lemma IdInIdSet(ps: seq<Person>, k: int)
    requires 0 <= k < |ps|
    ensures ps[k].id in IdSet(ps)
  {
    assert ps[k] in ps;
  }

  /** The ids the seeded links point at are seeded ids. */
  lemma SeedLinkTargets(hash: string -> Hash, t: seq<Profile>)
    requires |t| == 12
    ensures {"1", "2", "3", "4", "7", "8", "10", "11"} <= IdSet(SeedFamily(hash, t))
  {
    var ps := SeedFamily(hash, t);
    IdInIdSet(ps, 0); IdInIdSet(ps, 1); IdInIdSet(ps, 2); IdInIdSet(ps, 3);
    IdInIdSet(ps, 6); IdInIdSet(ps, 7); IdInIdSet(ps, 9); IdInIdSet(ps, 10);
  }

  /** Links into any set of stored ids are links into the stored ids. */
  lemma PointsIntoWider(ps: seq<Person>, ids: set<Id>)
    requires ids <= IdSet(ps)
    requires forall k :: 0 <= k < |ps| ==> PointsInto(ps[k], ids)
    ensures RelationsClosed(ps)
  {
  }

  /** Every parent and spouse link of the seeded persons names a seeded person. */
  lemma SeedRelationsClosed(hash: string -> Hash, t: seq<Profile>)
    requires |t| == 12
    ensures RelationsClosed(SeedFamily(hash, t))
  {
    var ps := SeedFamily(hash, t);
    var targets := {"1", "2", "3", "4", "7", "8", "10", "11"};
    SeedLinkTargets(hash, t);
    forall k | 0 <= k < |ps|
      ensures PointsInto(ps[k], targets)
    {
      assert k == 0 || k == 1 || k == 2 || k == 3 || k == 4 || k == 5 ||
             k == 6 || k == 7 || k == 8 || k == 9 || k == 10 || k == 11;
    }
    PointsIntoWider(ps, targets);
  }
}
