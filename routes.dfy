/** The decision rules inside the HTTP handlers of server/routes.ts, over the store model:
    the admin gate, the login check, the public listing, the normalisation of request
    bodies, and the status each handler answers with. The caller is the id of the login
    the session carries, or `None` when the request is not authenticated. */
module Routes {
  import opened Seqs
  import opened FamilyTypes
  import opened StoreSpec
  import opened Invariants

  // ---------------------------------------------------------------------------
  // isAdmin
  // ---------------------------------------------------------------------------

  /** The outcome of a middleware: continue with the handler, or answer at once. */
  datatype Gate = Pass | Deny(status: int, message: string)

  /** `isAdmin`: 401 without a session, 403 unless the session's person is an admin. */
  function AdminGate(d: DataStore, caller: Option<Id>): (g: Gate)
    ensures g.Pass? ==> caller.Some? && exists p :: p in d.persons && p.id == caller.value && p.role == RoleAdmin
    ensures caller.None? ==> g == Deny(401, "Unauthorized")
    ensures caller.Some? && g.Deny? ==> g == Deny(403, "Forbidden: Admin privileges required")
  {
    if caller.None? then Deny(401, "Unauthorized")
    else
      match GetPerson(d.persons, caller.value)
      case Some(p) => if p.role == RoleAdmin then Pass else Deny(403, "Forbidden: Admin privileges required")
      case None => Deny(403, "Forbidden: Admin privileges required")
  }

  /** With unique ids, every admin passes the gate. */
  lemma AdminGatePassesAdmins(d: DataStore, p: Person)
    requires Pairwise(d.persons, DistinctIds) && p in d.persons && p.role == RoleAdmin
    ensures AdminGate(d, Some(p.id)) == Pass
  {
    var q := GetPerson(d.persons, p.id).value;
    SameIdSamePerson(d.persons, p, q);
  }

  // ---------------------------------------------------------------------------
  // POST /api/login
  // ---------------------------------------------------------------------------

  datatype LoginResult = Rejected(message: string) | Accepted(id: Id, username: string, role: Role)

  /** The role reported for a login: its person's role, or "none" when no person has its id. */
  function RoleOf(d: DataStore, id: Id): Role
  {
    match GetPerson(d.persons, id)
    case Some(p) => p.role
    case None => RoleNone
  }

  /** The local strategy and the login handler: look the login up by username, compare the
      password with its hash, and report the role of the person with the login's id. */
  function Login(d: DataStore, hash: string -> Hash, username: string, password: string): (r: LoginResult)
    ensures r.Accepted? ==> r.username == username && r.role == RoleOf(d, r.id)
    ensures r.Accepted? ==>
              exists u :: u in d.users && u.username == username && u.id == r.id && u.password == hash(password)
    ensures r.Accepted? ==> GetUserByUsername(d.users, username) == Some(UserRecord(r.id, username, hash(password)))
    ensures r == Rejected("Incorrect username.") <==> forall u :: u in d.users ==> u.username != username
    ensures r == Rejected("Incorrect password.") <==>
              exists u :: u in d.users && u.username == username && GetUserByUsername(d.users, username) == Some(u) &&
                          u.password != hash(password)
    ensures r.Rejected? ==> r == Rejected("Incorrect username.") || r == Rejected("Incorrect password.")
  {
    match GetUserByUsername(d.users, username)
    case None => Rejected("Incorrect username.")
    case Some(u) =>
      if hash(password) != u.password then Rejected("Incorrect password.")
      else Accepted(u.id, u.username, RoleOf(d, u.id))
  }

  /** In a consistent store, a person with an account logs in with the password its hash
      was made from, and is reported with its own role. */
  lemma AccountCanLogIn(d: DataStore, hash: string -> Hash, p: Person, password: string)
    requires Consistent(d) && p in d.persons && HasAccount(p)
    requires p.passwordHash == Some(hash(password))
    ensures Login(d, hash, p.username.value, password) == Accepted(p.id, p.username.value, p.role)
  {
    LoginIffAccount(d, p);
    var u :| u in d.users && HoldsLogin(p, u);
    var v := GetUserByUsername(d.users, p.username.value).value;
    LoginNamedOwnedBy(d, p, v);
    var q := GetPerson(d.persons, p.id).value;
    SameIdSamePerson(d.persons, p, q);
  }

  /** In a consistent store, a login that succeeds belongs to a person with an account whose
      hash is the hash of the password given, and the role reported is never "none". */
  lemma LoginOnlyForAccounts(d: DataStore, hash: string -> Hash, username: string, password: string)
    requires Consistent(d)
    ensures var r := Login(d, hash, username, password);
      r.Accepted? ==>
        r.role != RoleNone &&
        exists p :: p in d.persons && p.id == r.id && p.username == Some(username) &&
                    HasAccount(p) && p.passwordHash == Some(hash(password))
  {
    var r := Login(d, hash, username, password);
    if r.Accepted? {
      var u := GetUserByUsername(d.users, username).value;
      var p :| p in d.persons && Owns(p, u);
      var q := GetPerson(d.persons, u.id).value;
      SameIdSamePerson(d.persons, p, q);
    }
  }

  // ---------------------------------------------------------------------------
  // GET /api/persons
  // ---------------------------------------------------------------------------

  /** The public view of a person: no username, no hash, and the WhatsApp number only for
      logged-in callers. */
  datatype PublicPerson = PublicPerson(
    id: Id,
    firstName: Option<string>,
    lastName: Option<string>,
    age: Option<int>,
    residence: Option<string>,
    occupation: Option<string>,
    bio: Option<string>,
    role: Role,
    fatherId: Option<Id>,
    motherId: Option<Id>,
    spouseId: Option<Id>,
    sideRelations: seq<SideRelation>,
    whatsapp: Option<string>)

  function Sanitise(p: Person, loggedIn: bool): (r: PublicPerson)
    ensures r.whatsapp == (if loggedIn then p.whatsapp else None)
  {
    PublicPerson(p.id, p.firstName, p.lastName, p.age, p.residence, p.occupation, p.bio, p.role,
                 p.fatherId, p.motherId, p.spouseId, p.sideRelations,
                 if loggedIn then p.whatsapp else None)
  }

  /** The `map` of the listing handler. */
  function PublicListing(ps: seq<Person>, loggedIn: bool): (r: seq<PublicPerson>)
    ensures |r| == |ps|
    ensures forall k :: 0 <= k < |ps| ==> r[k] == Sanitise(ps[k], loggedIn)
  {
    if |ps| == 0 then []
    else [Sanitise(ps[0], loggedIn)] + PublicListing(ps[1..], loggedIn)
  }

  /** What the listing may reveal: everything but the credentials, and the WhatsApp number
      only to a logged-in caller. */
  predicate SamePublicly(p: Person, q: Person, loggedIn: bool)
  {
    p.(username := None, passwordHash := None, whatsapp := None) ==
    q.(username := None, passwordHash := None, whatsapp := None) &&
    (loggedIn ==> p.whatsapp == q.whatsapp)
  }

  /** An entry reveals exactly the public part of a person: two persons give the same entry
      exactly when they agree on everything but the credentials and, for an anonymous
      caller, the WhatsApp number. */
  lemma SanitiseRevealsPublicPart(p: Person, q: Person, loggedIn: bool)
    ensures Sanitise(p, loggedIn) == Sanitise(q, loggedIn) <==> SamePublicly(p, q, loggedIn)
  {
    if Sanitise(p, loggedIn) == Sanitise(q, loggedIn) {
      assert p.(username := None, passwordHash := None, whatsapp := None) ==
             q.(username := None, passwordHash := None, whatsapp := None);
    }
  }

  /** The listing is one entry per person, in order, and it cannot tell apart two stores
      that differ only in usernames, hashes and, for an anonymous caller, WhatsApp numbers. */
  lemma ListingHidesSecrets(ps: seq<Person>, qs: seq<Person>, loggedIn: bool)
    requires |ps| == |qs|
    requires forall k :: 0 <= k < |ps| ==> SamePublicly(ps[k], qs[k], loggedIn)
    ensures PublicListing(ps, loggedIn) == PublicListing(qs, loggedIn)
    ensures forall k :: 0 <= k < |ps| ==> PublicListing(ps, loggedIn)[k].id == ps[k].id
    ensures !loggedIn ==> forall k :: 0 <= k < |ps| ==> PublicListing(ps, loggedIn)[k].whatsapp.None?
  {
    var a := PublicListing(ps, loggedIn);
    var b := PublicListing(qs, loggedIn);
    forall k | 0 <= k < |ps|
      ensures a[k] == b[k]
    {
      var p := ps[k];
      var q := qs[k];
      var p0 := p.(username := None, passwordHash := None, whatsapp := None);
      var q0 := q.(username := None, passwordHash := None, whatsapp := None);
      assert p0.id == q0.id && p0.firstName == q0.firstName && p0.lastName == q0.lastName;
      assert p0.age == q0.age && p0.residence == q0.residence && p0.occupation == q0.occupation;
      assert p0.bio == q0.bio && p0.role == q0.role && p0.sideRelations == q0.sideRelations;
      assert p0.fatherId == q0.fatherId && p0.motherId == q0.motherId && p0.spouseId == q0.spouseId;
    }
  }

  // ---------------------------------------------------------------------------
  // Request bodies
  // ---------------------------------------------------------------------------

  /** A value of a decoded JSON body. Arrays and objects are never looked into by the
      normalisation and stay opaque. */
  datatype JsValue = Undefined | Null | Bool(b: bool) | Num(n: int) | Str(s: string) | Compound

  /** One own key of the body object and its value. */
  datatype Field = Field(key: string, value: JsValue)

  /** `value === "" ? undefined : value` */
  function Blank(v: JsValue): JsValue
  {
    if v == Str("") then Undefined else v
  }

  /** The body after the normalisation loop, field by field. */
  function Normalised(fs: seq<Field>): (r: seq<Field>)
    ensures |r| == |fs|
  {
    seq(|fs|, k requires 0 <= k < |fs| => fs[k].(value := Blank(fs[k].value)))
  }

  /** The `Object.keys(body).forEach` loops of the create and update handlers, writing
      undefined over every empty string in place. */
  method NormaliseBody(body: array<Field>)
    modifies body
    ensures body[..] == Normalised(old(body[..]))
  {
    for k := 0 to body.Length
      invariant forall j :: 0 <= j < k ==> body[j] == old(body[j]).(value := Blank(old(body[j]).value))
      invariant forall j :: k <= j < body.Length ==> body[j] == old(body[j])
    {
      if body[k].value == Str("") {
        body[k] := body[k].(value := Undefined);
      }
    }
  }

  /** Normalisation keeps every key in place, turns exactly the empty strings into undefined,
      leaves no empty string behind, and changes nothing a second time. */
  lemma NormalisedProperties(fs: seq<Field>)
    ensures var r := Normalised(fs);
      && (forall k :: 0 <= k < |fs| ==> r[k].key == fs[k].key)
      && (forall k :: 0 <= k < |fs| ==> (r[k] != fs[k] <==> fs[k].value == Str("")))
      && (forall k :: 0 <= k < |fs| ==> fs[k].value == Str("") ==> r[k].value == Undefined)
      && (forall k :: 0 <= k < |fs| ==> r[k].value != Str(""))
      && Normalised(r) == r
  {
  }

  /** The value the body gives a key: `body[key]`, `None` for a key that is not there. */
  function Lookup(fs: seq<Field>, key: string): (r: Option<JsValue>)
    ensures r.Some? <==> exists k :: 0 <= k < |fs| && fs[k].key == key
    ensures r.Some? ==> exists k :: 0 <= k < |fs| && fs[k].key == key && fs[k].value == r.value
  {
    if |fs| == 0 then None
    else if fs[0].key == key then Some(fs[0].value)
    else
      var r := Lookup(fs[1..], key);
      assert forall k :: 0 <= k < |fs| - 1 ==> fs[1..][k] == fs[k + 1];
      r
  }

  /** A string key read as a partial update: absent, present but not a string, or a string. */
  function PatchOf(fs: seq<Field>, key: string): Patch<string>
  {
    match Lookup(fs, key)
    case None => Keep
    case Some(Str(s)) => Put(Some(s))
    case Some(_) => Put(None)
  }

  /** `Lookup` on the normalised body is the blanked `Lookup` on the original. */
  lemma {:induction false} LookupNormalised(fs: seq<Field>, key: string)
    ensures Lookup(Normalised(fs), key) ==
              match Lookup(fs, key) case None => None case Some(v) => Some(Blank(v))
  {
    if |fs| > 0 {
      assert Normalised(fs)[1..] == Normalised(fs[1..]);
      LookupNormalised(fs[1..], key);
    }
  }

  /** After normalisation an empty form field clears the stored attribute instead of
      storing an empty string, and every other key reads as before. */
  lemma NormalisedPatch(fs: seq<Field>, key: string)
    ensures PatchOf(Normalised(fs), key) != Put(Some(""))
    ensures PatchOf(fs, key) == Put(Some("")) ==> PatchOf(Normalised(fs), key) == Put(None)
    ensures PatchOf(fs, key) != Put(Some("")) ==> PatchOf(Normalised(fs), key) == PatchOf(fs, key)
  {
    LookupNormalised(fs, key);
  }

  // ---------------------------------------------------------------------------
  // Handlers that change the store
  // ---------------------------------------------------------------------------

  /** What a handler answers with, and the store it leaves. `person` is the body of a 200 or
      201 answer carrying a person. */
  datatype Reply = Reply(status: int, message: string, person: Option<Person>, store: DataStore)

  /** A handler stopped by its middleware: the middleware's answer, store untouched. */
  function Denied(g: Gate, d: DataStore): Reply
    requires g.Deny?
  {
    Reply(g.status, g.message, None, d)
  }

  /** POST /api/persons: admin only; answers 201 with the created person. */
  function CreatePersonRoute(d: DataStore, hash: string -> Hash, caller: Option<Id>, f: NewPerson,
                             password: Option<string>): (r: Reply)
    ensures AdminGate(d, caller).Deny? ==>
              r.store == d && r.status == AdminGate(d, caller).status && r.message == AdminGate(d, caller).message
    ensures AdminGate(d, caller).Pass? ==>
              r.status == 201 && r.person.Some? && (r.store, r.person.value) == CreatePersonSpec(d, hash, f, password)
  {
    var g := AdminGate(d, caller);
    if g.Deny? then Denied(g, d)
    else
      var (d', p) := CreatePersonSpec(d, hash, f, password);
      Reply(201, "", Some(p), d')
  }

  /** PATCH /api/persons/:id: 401 without a session; 403 when a caller that is not an admin
      edits someone else; otherwise the update runs, and 404 tells that the id is unknown. */
  function UpdatePersonRoute(d: DataStore, hash: string -> Hash, caller: Option<Id>, id: Id,
                             u: PersonUpdate): (r: Reply)
    ensures caller.None? ==> r == Reply(401, "Unauthorized", None, d)
    ensures r.status == 403 <==> caller.Some? && RoleOf(d, caller.value) != RoleAdmin && id != caller.value
    ensures r.status == 403 ==> r.store == d
    ensures r.status == 404 ==> r.store == d && GetPerson(d.persons, id).None?
    ensures r.status == 200 ==> (r.store, r.person) == UpdatePersonSpec(d, hash, id, u) && r.person.Some?
    ensures r.status in {200, 401, 403, 404}
    ensures caller.Some? ==> r.status != 401
    ensures caller.Some? && (RoleOf(d, caller.value) == RoleAdmin || id == caller.value) ==>
              (r.status == 200 <==> GetPerson(d.persons, id).Some?) &&
              (r.status == 404 <==> GetPerson(d.persons, id).None?)
  {
    if caller.None? then Reply(401, "Unauthorized", None, d)
    else if RoleOf(d, caller.value) != RoleAdmin && id != caller.value then
      Reply(403, "Forbidden: Cannot edit other users' data.", None, d)
    else
      var (d', res) := UpdatePersonSpec(d, hash, id, u);
      if res.Some? then Reply(200, "", res, d')
      else Reply(404, "Person not found", None, d')
  }

  /** A caller that is not an admin changes at most its own person record. */
  lemma NonAdminEditsOnlySelf(d: DataStore, hash: string -> Hash, caller: Id, id: Id, u: PersonUpdate)
    requires RoleOf(d, caller) != RoleAdmin
    ensures var r := UpdatePersonRoute(d, hash, Some(caller), id, u);
      r.store.persons != d.persons ==>
        id == caller && |r.store.persons| == |d.persons| &&
        forall k :: 0 <= k < |d.persons| && d.persons[k].id != caller ==> r.store.persons[k] == d.persons[k]
  {
    var r := UpdatePersonRoute(d, hash, Some(caller), id, u);
    if r.store.persons != d.persons {
      var i := FirstIndex(d.persons, PersonIdIs(id));
      assert r.store.persons == d.persons[i := r.person.value];
    }
  }

  /** A caller that is not an admin, editing itself under a username no other person uses,
      leaves every other account's login as it was and adds none. */
  lemma NonAdminKeepsOtherLogins(d: DataStore, hash: string -> Hash, caller: Id, id: Id, u: PersonUpdate)
    requires Consistent(d) && RoleOf(d, caller) != RoleAdmin
    requires Truthy(u.newUsername) ==>
               forall q :: q in d.persons && q.id != caller ==> q.username != u.newUsername
    ensures var r := UpdatePersonRoute(d, hash, Some(caller), id, u);
      && (forall v :: v in d.users && v.id != caller ==> v in r.store.users)
      && (forall v :: v in r.store.users && v.id != caller ==> v in d.users)
  {
    var r := UpdatePersonRoute(d, hash, Some(caller), id, u);
    if r.status == 200 {
      var i := FirstIndex(d.persons, PersonIdIs(id));
      assert r.store == UpdatedAt(d, hash, i, u);
      assert d.persons[i] in d.persons;
      UpdateKeepsOtherLogins(d, hash, i, u);
    }
  }

  /** Without that condition a caller that is not an admin takes over another account: it
      gives itself the admin's username and a new password. The password step finds the
      admin's login under that username and overwrites its hash, while the admin's person
      record stays as it was. The caller then logs in as the admin, with the admin role. */
  lemma SelfEditTakesOverAccount(hash: string -> Hash)
    ensures
      var d := TwoAccounts(hash);
      var u := NoChange.(newUsername := Some("admin"), newPassword := Some("x"));
      var r := UpdatePersonRoute(d, hash, Some("2"), "2", u);
      && Consistent(d) && RoleOf(d, "2") == RoleUser
      && r.status == 200 && |r.store.persons| == 2 && r.store.persons[0] == d.persons[0]
      && Login(r.store, hash, "admin", "x") == Accepted("1", "admin", RoleAdmin)
  {
    var d := TwoAccounts(hash);
    TwoAccountsConsistent(hash);
    TakenUsernameWithPasswordOverwritesLogin(hash);
    assert GetPerson(d.persons, "2") == Some(d.persons[1]);
    var r := UpdatePersonRoute(d, hash, Some("2"), "2", NoChange.(newUsername := Some("admin"), newPassword := Some("x")));
    assert GetUserByUsername(r.store.users, "admin") == Some(r.store.users[0]);
    assert GetPerson(r.store.persons, "1") == Some(d.persons[0]);
  }

  /** The takeover depends on the order of the logins. When the caller's login comes
      before the admin's, the rename puts the admin's username on the caller's own login,
      which keeps the caller's old hash and is the one a login by that username finds: the
      new password is refused, and the old one logs the caller in under its own id and
      role. The admin's own login, rehashed, is no longer the one that name finds. The two
      passwords are taken to hash differently. */
  lemma SelfEditTakeoverNeedsAdminFirst(hash: string -> Hash)
    requires hash("x") != hash("o")
    ensures
      var d := CallerFirst(hash);
      var u := NoChange.(newUsername := Some("admin"), newPassword := Some("x"));
      var r := UpdatePersonRoute(d, hash, Some("2"), "2", u);
      && Consistent(d) && RoleOf(d, "2") == RoleUser
      && r.status == 200
      && Login(r.store, hash, "admin", "x") == Rejected("Incorrect password.")
      && Login(r.store, hash, "admin", "o") == Accepted("2", "admin", RoleUser)
  {
    var d := CallerFirst(hash);
    CallerFirstConsistent(hash);
    TakenUsernameWithPasswordCallerFirst(hash);
    assert GetPerson(d.persons, "2") == Some(d.persons[1]);
    var r := UpdatePersonRoute(d, hash, Some("2"), "2", NoChange.(newUsername := Some("admin"), newPassword := Some("x")));
    assert FirstIndex(r.store.persons, PersonIdIs("2")) == 1;
    CallerLoginFirst(r.store, hash);
  }

  /** Logins by the name "admin" when the caller's login, with its old hash, carries that
      name ahead of the admin's. */
  lemma CallerLoginFirst(d: DataStore, hash: string -> Hash)
    requires d.users == [UserRecord("2", "admin", hash("o")), UserRecord("1", "admin", hash("x"))]
    requires RoleOf(d, "2") == RoleUser && hash("x") != hash("o")
    ensures Login(d, hash, "admin", "x") == Rejected("Incorrect password.")
    ensures Login(d, hash, "admin", "o") == Accepted("2", "admin", RoleUser)
  {
    assert FirstIndex(d.users, UserNameIs(Some("admin"))) == 0;
  }

  /** A caller that is not an admin, holding a login of its own, may give itself the admin
      role, and then passes the admin gate. */
  lemma SelfEditPromotesToAdmin(hash: string -> Hash)
    ensures
      var d := TwoAccounts(hash);
      var r := UpdatePersonRoute(d, hash, Some("2"), "2", NoChange.(role := Some(RoleAdmin)));
      && Consistent(d) && GetUser(d.users, "2").Some? && AdminGate(d, Some("2")).Deny?
      && r.status == 200 && AdminGate(r.store, Some("2")) == Pass
  {
    var d := TwoAccounts(hash);
    TwoAccountsConsistent(hash);
    assert FirstIndex(d.users, UserIdIs("2")) == 1;
    assert FirstIndex(d.persons, PersonIdIs("2")) == 1;
    var r := UpdatePersonRoute(d, hash, Some("2"), "2", NoChange.(role := Some(RoleAdmin)));
    assert r.store.persons[1].id == "2" && r.store.persons[1].role == RoleAdmin;
    assert FirstIndex(r.store.persons, PersonIdIs("2")) == 1;
  }

  /** DELETE /api/persons/:id: admin only; 204 when a person was removed, 404 otherwise. */
  function DeletePersonRoute(d: DataStore, caller: Option<Id>, id: Id): (r: Reply)
    ensures AdminGate(d, caller).Deny? ==>
              r.store == d && r.status == AdminGate(d, caller).status && r.message == AdminGate(d, caller).message
    ensures AdminGate(d, caller).Pass? ==>
              r.store == DeletePersonSpec(d, id).0 &&
              (r.status == 204 <==> exists p :: p in d.persons && p.id == id) &&
              (r.status == 404 <==> forall p :: p in d.persons ==> p.id != id)
  {
    var g := AdminGate(d, caller);
    if g.Deny? then Denied(g, d)
    else
      var (d', deleted) := DeletePersonSpec(d, id);
      if deleted then Reply(204, "", None, d') else Reply(404, "Person not found", None, d')
  }

  /** PATCH /api/change-password/:id: admin only; 400 without a new password, 404 when the
      person is unknown or has no username, then the login's password is changed: 200 when
      a login has that username, 500 when none has. */
  function ChangePasswordRoute(d: DataStore, hash: string -> Hash, caller: Option<Id>, id: Id,
                               newPassword: Option<string>): (r: Reply)
    ensures AdminGate(d, caller).Deny? ==>
              r.store == d && r.status == AdminGate(d, caller).status && r.message == AdminGate(d, caller).message
    ensures AdminGate(d, caller).Pass? && !Truthy(newPassword) ==> r.status == 400 && r.store == d
    ensures AdminGate(d, caller).Pass? && Truthy(newPassword) ==>
              match GetPerson(d.persons, id)
              case None => r.status == 404 && r.store == d
              case Some(p) =>
                if !Truthy(p.username) then r.status == 404 && r.store == d
                else
                  var (d', ok) := UpdateUserPasswordSpec(d, p.username.value, hash(newPassword.value));
                  r.store == d' && r.status == (if ok then 200 else 500)
  {
    var g := AdminGate(d, caller);
    if g.Deny? then Denied(g, d)
    else if !Truthy(newPassword) then Reply(400, "New password is required.", None, d)
    else
      match GetPerson(d.persons, id)
      case None => Reply(404, "Person or associated user account not found.", None, d)
      case Some(p) =>
        if !Truthy(p.username) then Reply(404, "Person or associated user account not found.", None, d)
        else
          var (d', ok) := UpdateUserPasswordSpec(d, p.username.value, hash(newPassword.value));
          if ok then Reply(200, "Password updated successfully.", None, d')
          else Reply(500, "Failed to update password.", None, d')
  }

  /** In a consistent store the password change fails with 500 exactly for a person that
      has a username but role "none", and so no login. */
  lemma ChangePasswordFailsOnlyWithoutLogin(d: DataStore, hash: string -> Hash, caller: Option<Id>, id: Id,
                                            newPassword: Option<string>)
    requires Consistent(d) && AdminGate(d, caller).Pass? && Truthy(newPassword)
    ensures var r := ChangePasswordRoute(d, hash, caller, id, newPassword);
      r.status == 500 <==>
        exists p :: p in d.persons && p.id == id && Truthy(p.username) && p.role == RoleNone
  {
    var r := ChangePasswordRoute(d, hash, caller, id, newPassword);
    match GetPerson(d.persons, id)
    case None =>
    case Some(p) =>
      forall q | q in d.persons && q.id == id
        ensures q == p
      {
        SameIdSamePerson(d.persons, p, q);
      }
      if Truthy(p.username) {
        PasswordChangeSucceedsIffAccount(d, p, hash(newPassword.value));
      }
  }

  /** Only an admin's request changes the store through the create, delete and
      change-password handlers. */
  lemma OnlyAdminsChangeStore(d: DataStore, hash: string -> Hash, caller: Option<Id>, id: Id,
                              f: NewPerson, password: Option<string>)
    requires Pairwise(d.persons, DistinctIds)
    ensures CreatePersonRoute(d, hash, caller, f, password).store != d ||
            DeletePersonRoute(d, caller, id).store != d ||
            ChangePasswordRoute(d, hash, caller, id, password).store != d
            ==> caller.Some? && RoleOf(d, caller.value) == RoleAdmin
  {
    if AdminGate(d, caller).Pass? {
      var p :| p in d.persons && p.id == caller.value && p.role == RoleAdmin;
      AdminGatePassesAdmins(d, p);
      var q := GetPerson(d.persons, p.id).value;
      SameIdSamePerson(d.persons, p, q);
    }
  }

  // ---------------------------------------------------------------------------
  // Across handlers
  // ---------------------------------------------------------------------------

  /** A person created with a role, a username and a password can log in with that password
      straight away, and is reported with the role it was given. */
  lemma CreatedAccountCanLogIn(d: DataStore, hash: string -> Hash, f: NewPerson, password: Option<string>)
    requires Consistent(d) && SafeCreate(d, f, password) && ProvisionsLogin(f, password)
    ensures var (d', p) := CreatePersonSpec(d, hash, f, password);
      Login(d', hash, f.username.value, password.value) == Accepted(p.id, f.username.value, RoleOrNone(f.role))
  {
    var (d', p) := CreatePersonSpec(d, hash, f, password);
    CreatePersonKeepsConsistent(d, hash, f, password);
    assert p == d'.persons[|d.persons|] && p in d'.persons;
    AccountCanLogIn(d', hash, p, password.value);
  }

  /** Setting a person's role to "none" clears its username and takes its login away: no
      password logs in under the old username any more. */
  lemma DemotedAccountCannotLogIn(d: DataStore, hash: string -> Hash, p: Person, password: string)
    requires Consistent(d) && p in d.persons && HasAccount(p)
    ensures var (d', r) := UpdatePersonSpec(d, hash, p.id, NoChange.(role := Some(RoleNone)));
      && r.Some? && r.value.username.None? && r.value.role == RoleNone
      && Login(d', hash, p.username.value, password) == Rejected("Incorrect username.")
  {
    var u := NoChange.(role := Some(RoleNone));
    var i := FirstIndex(d.persons, PersonIdIs(p.id));
    SameIdSamePerson(d.persons, p, d.persons[i]);
    assert IsAccountRemoval(p, Merge(p, u));
    var (d', r) := UpdatePersonSpec(d, hash, p.id, u);
    assert d'.users == Filter(d.users, UserNameIsNot(p.username));
  }
}
