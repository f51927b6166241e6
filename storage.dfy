/** `MemStorage` (server/storage.ts): the two collections held in one mutable
    field and changed step by step as the source does. Every method is proved to
    leave the store in the state the corresponding function of `StoreSpec` gives. */
module Storage {
  import opened Seqs
  import opened FamilyTypes
  import opened StoreSpec
  import opened Seed

  class MemStorage {
    /** `hashPassword`, fixed for the lifetime of the store. */
    const hash: string -> Hash
    /** `this.data`: the login records and the person records. */
    var data: DataStore

    constructor (hash: string -> Hash)
      ensures this.hash == hash && data == DataStore([], [])
    {
      this.hash := hash;
      data := DataStore([], []);
    }

    /** `initSeedData`: the seeded persons and the logins derived from them. */
    method InitSeedData()
      modifies this
      ensures data == SeedStore(hash)
    {
      var persons := SeedPersons(hash);
      data := data.(persons := persons);
      data := data.(users := UsersFromPersons(data.persons));
    }

    method GetUser(id: Id) returns (r: Option<UserRecord>)
      ensures r == StoreSpec.GetUser(data.users, id)
    {
      var k := FindIndex(data.users, UserIdIs(id));
      r := if k < 0 then None else Some(data.users[k]);
    }

    method GetUserByUsername(name: string) returns (r: Option<UserRecord>)
      ensures r == StoreSpec.GetUserByUsername(data.users, name)
    {
      var k := FindIndex(data.users, UserNameIs(Some(name)));
      r := if k < 0 then None else Some(data.users[k]);
    }

    method CreateUser(username: string, password: string) returns (u: UserRecord)
      modifies this
      ensures (data, u) == CreateUserSpec(old(data), hash, username, password)
    {
      var id := FreshId(TakenIds(data));
      u := UserRecord(id, username, hash(password));
      data := data.(users := data.users + [u]);
    }

    method UpdateUserPassword(name: string, newHash: Hash) returns (ok: bool)
      modifies this
      ensures (data, ok) == UpdateUserPasswordSpec(old(data), name, newHash)
    {
      var j := FindIndex(data.users, UserNameIs(Some(name)));
      if j < 0 {
        return false;
      }
      data := data.(users := data.users[j := data.users[j].(password := newHash)]);
      var m := FindIndex(data.persons, PersonNameIs(Some(name)));
      if m >= 0 {
        data := data.(persons := data.persons[m := data.persons[m].(passwordHash := Some(newHash))]);
      }
      ok := true;
    }

    method GetPerson(id: Id) returns (r: Option<Person>)
      ensures r == StoreSpec.GetPerson(data.persons, id)
    {
      var k := FindIndex(data.persons, PersonIdIs(id));
      r := if k < 0 then None else Some(data.persons[k]);
    }

    method GetPersons() returns (ps: seq<Person>)
      ensures ps == data.persons
    {
      ps := data.persons;
    }

    method CreatePerson(f: NewPerson, password: Option<string>) returns (p: Person)
      modifies this
      ensures (data, p) == CreatePersonSpec(old(data), hash, f, password)
    {
      p := NewPersonRecord(f, FreshId(TakenIds(data)));
      if p.role != RoleNone && Truthy(p.username) && Truthy(password) {
        var h := hash(password.value);
        p := p.(passwordHash := Some(h));
        data := data.(users := data.users + [UserRecord(p.id, p.username.value, h)]);
      }
      data := data.(persons := data.persons + [p]);
    }

    method UpdatePerson(id: Id, u: PersonUpdate) returns (r: Option<Person>)
      modifies this
      ensures (data, r) == UpdatePersonSpec(old(data), hash, id, u)
    {
      var i := FindIndex(data.persons, PersonIdIs(id));
      if i == -1 {
        return None;
      }
      var cur := data.persons[i];
      var upd := Merge(cur, u);

      // password step
      if Truthy(u.newPassword) {
        var h := hash(u.newPassword.value);
        upd := upd.(passwordHash := Some(h));
        var j := FindIndex(data.users, UserNameIs(upd.username));
        if j >= 0 {
          data := data.(users := data.users[j := data.users[j].(password := h)]);
        }
      }

      // account transition
      var isNewAccount := IsNewAccount(cur, upd);
      var isAccountRemoval := IsAccountRemoval(cur, upd);
      if isNewAccount {
        if upd.passwordHash.None? {
          upd := upd.(passwordHash := Some(hash(DefaultPassword)));
        }
        data := data.(users := data.users + [UserRecord(upd.id, upd.username.value, upd.passwordHash.value)]);
      } else if isAccountRemoval {
        data := data.(users := Filter(data.users, UserNameIsNot(cur.username)));
        upd := upd.(username := None, passwordHash := None);
      } else if Truthy(cur.username) && upd.username != cur.username {
        var j := FindIndex(data.users, UserNameIs(cur.username));
        if j >= 0 {
          data := data.(users := data.users[j := data.users[j].(username := upd.username.value)]);
        }
      }

      data := data.(persons := data.persons[i := upd]);
      r := Some(upd);
    }

    method DeletePerson(id: Id) returns (deleted: bool)
      modifies this
      ensures (data, deleted) == DeletePersonSpec(old(data), id)
    {
      var initialLength := |data.persons|;
      var k := FindIndex(data.persons, PersonIdIs(id));
      if k >= 0 && Truthy(data.persons[k].username) {
        data := data.(users := Filter(data.users, UserNameIsNot(data.persons[k].username)));
      }
      data := data.(persons := Filter(data.persons, PersonIdIsNot(id)));
      SweepReferences(id);
      deleted := |data.persons| < initialLength;
    }

    /** The `forEach` of `deletePerson`: clear every parent, spouse and side-relation link to `id`. */
    method SweepReferences(id: Id)
      modifies this
      ensures data == old(data).(persons := SweepAll(old(data.persons), id))
    {
      ghost var kept := data.persons;
      var i := 0;
      while i < |data.persons|
        invariant 0 <= i <= |data.persons| == |kept|
        invariant data.users == old(data.users)
        invariant forall j :: 0 <= j < i ==> data.persons[j] == Sweep(kept[j], id)
        invariant forall j :: i <= j < |kept| ==> data.persons[j] == kept[j]
      {
        var p := data.persons[i];
        if p.fatherId == Some(id) { p := p.(fatherId := None); }
        if p.motherId == Some(id) { p := p.(motherId := None); }
        if p.spouseId == Some(id) { p := p.(spouseId := None); }
        p := p.(sideRelations := Filter(p.sideRelations, RelationIdIsNot(id)));
        assert p == Sweep(kept[i], id);
        data := data.(persons := data.persons[i := p]);
        i := i + 1;
      }
    }
  }
}
