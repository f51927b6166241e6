# Family directory store, modelled in Dafny

This project models the data layer of a small family-directory web application. It also models the decision rules of its HTTP handlers.

**The store.** `MemStorage` in server/storage.ts keeps two sequences side by side:

- the person records, with father, mother and spouse links, side relations, a role (`admin`, `user` or `none`), and an optional username and password hash;
- the login records `{id, username, password}`.

Its operations keep the two in step:

- `createPerson` provisions a login for a new person with an account.
- `updatePerson` merges a partial update. It then rotates the password and runs a three-way account transition: new account, account removal, or rename.
- `deletePerson` removes a person and its login, and clears every link to it from the others.
- `updateUserPassword` changes a login's hash and its person's hash together.

**The handlers.** server/routes.ts contributes:

- the admin gate and the login check, with the role it reports;
- the public listing, which hides credentials, and hides WhatsApp numbers from anonymous callers;
- the loop that turns empty form fields into `undefined`;
- the status rules of the create, update, delete and change-password handlers.

## Layout

- `seqs.dfy` (`Seqs`): `find`/`findIndex` and `filter` on sequences, with a loop that computes the first matching index.
- `family_types.dfy` (`FamilyTypes`): the records, the shape of partial updates, and JavaScript truthiness of optional strings.
- `seed.dfy` (`Seed`): the twelve seeded family members, and the derivation of logins from persons used by `initSeedData`. The descriptive fields of each member (names, age, residence, occupation, biography, WhatsApp number) are kept apart in `SeedProfiles`, and `SeedFamily` builds the members from any twelve such profiles. The structural facts about the seed (ids, usernames, links, accounts) are proved for every choice of profiles, and so also for the seeded ones.
- `store_spec.dfy` (`StoreSpec`): every store operation as a function from the old store to the new one.
- `storage.dfy` (`Storage`): the class `MemStorage`.
  - It has one mutable field, the store.
  - Its methods make the same step-by-step changes as the source: push, in-place field writes, reassignment through `filter`, indexed replacement, and the clean-up loop of `deletePerson`.
  - Each method is proved to end in the state the matching `StoreSpec` function describes.
- `invariants.dfy` (`Invariants`): the cross-collection invariant `Consistent`, which holds when:
  - ids are unique;
  - usernames are unique, among persons and among logins;
  - every login belongs to a person with a role, the same id, username and hash;
  - every person with a username and a role has a login.

  `createPerson`, `updatePerson`, `deletePerson`, `updateUserPassword` and seeding are proved to keep it, under conditions that exclude the paths on which the code breaks it. For those paths there are concrete stores on which the invariant fails. `createUser` never keeps it: the login it appends has a fresh id, and no person has that id.
- `routes.dfy` (`Routes`): the handler rules as functions over the store model, plus the in-place normalisation of a request body as a method over an array.

Hashing is the parameter `hash: string -> Hash`: a deterministic function whose results are never empty. A password matches a stored hash when it hashes to it. `randomUUID` is `FreshId`, an id that no stored person or login carries.

The code does not keep the invariant on every path. The model keeps the code's behaviour on those paths and proves the invariant only where the code does keep it:

- `createUser` appends a login whose fresh id belongs to no person.
- `createPerson` with a role and a username but no password stores the username without creating a login.
- An `updatePerson` call that renames a person and sets a new password looks the login up under the new username, not the old one.
  - If the new username is free, the lookup finds no login, and the renamed login keeps the old hash.
  - If the new username is another account's, the lookup finds that account's login and overwrites its hash. The other person's record is not touched.
- Consider a person with role `none` that still has a username, which `createPerson` allows. Giving that person a role back creates no login, because neither a new account nor a rename is detected.
- A new username that another person already uses is accepted, because the code has no uniqueness check.

Two of these paths are open to users who are not admins. The PATCH handler (server/routes.ts:235-242) only checks that such a caller edits its own record, and any key of the body then reaches `updatePerson`:
- A caller can give itself the admin's username and a new password. When the admin's login comes before the caller's in the list of logins, as for the seeded admin, the caller can then log in as the admin, with the admin role (`SelfEditTakesOverAccount`). When the caller's login comes first, as for an admin whose login was added after the caller's, the rename puts the admin's username on the caller's own login with the caller's old hash. A login by that username then finds the caller's login, so the new password is refused and the old one logs in as the caller (`SelfEditTakeoverNeedsAdminFirst`).
- A caller that holds a login can set its own `role` to admin, after which it passes the admin gate (`SelfEditPromotesToAdmin`).

When no other person uses the new username, such a self-edit leaves every other account's login as it was (`NonAdminKeepsOtherLogins`).

The intended invariant is that every person with a username and a role other than `none` has a matching login, and that every login belongs to such a person. The model follows the code, under which this can fail.

## Model

| member | source | states |
|---|---|---|
| Seqs.FirstIndex | server/storage.ts:249 | `findIndex`: -1 exactly when no element satisfies the predicate, otherwise the first index that does |
| Seqs.FindIndex | server/storage.ts:249 | the scanning loop returns exactly the index `FirstIndex` specifies |
| Seqs.Filter | server/storage.ts:296 | `filter`: an element is kept exactly when it is in the input and satisfies the predicate; nothing is added; the length is kept exactly when every element satisfies it |
| StoreSpec.FreshId | server/storage.ts:222 | the model of `randomUUID`: the id returned is none of the ids taken |
| StoreSpec.TakenIds | server/storage.ts:180 | every person id and every login id is among the taken ids |
| StoreSpec.GetPerson | server/storage.ts:207-210 | `None` exactly when no person has the id; otherwise the first person with that id |
| StoreSpec.GetUser | server/storage.ts:167-171 | `None` exactly when no login has the id; otherwise the first login with that id |
| StoreSpec.GetUserByUsername | server/storage.ts:173-176 | `None` exactly when no login has the username; otherwise the first login with it |
| StoreSpec.CreateUserSpec | server/storage.ts:178-186 | persons unchanged; one login appended with a fresh id, the given username and the hash of the password |
| StoreSpec.CreatePersonSpec | server/storage.ts:217-245 | exactly one person appended at the end, with a fresh id and the given fields; role defaults to none and side relations to []; a hash is stored exactly when a login is provisioned (role, username and password all given), and then the login {id, username, hash} is appended; otherwise the logins are unchanged |
| StoreSpec.Merge | server/storage.ts:252-260 | the spread: id and hash kept; role and username taken from the update only when supplied (username only when non-empty); every other key keeps its value when absent from the update and takes the supplied value when present, an explicit undefined included; supplied side relations replace the old ones |
| StoreSpec.RotatePassword | server/storage.ts:262-272 | a non-empty new password sets the merged record's hash to its hash and the first login named like the merged username gets the same hash; otherwise nothing changes |
| StoreSpec.AccountTransition | server/storage.ts:274-305 | new account and removal never both hold; a new account appends one login with the record's hash, or the hash of "password123" when there is none; a removal filters out every login with the old username and clears username and hash; a rename renames the first login carrying the old username and changes no other login; otherwise nothing changes |
| StoreSpec.UpdatePersonSpec | server/storage.ts:247-311 | `None` exactly when no person has the id, and then the store is unchanged; otherwise only the entry at the found index is replaced, by a record with the same id |
| StoreSpec.UpdatePersonOutcome | server/storage.ts:253-305 | the role becomes the merged role; a removal clears username and hash and leaves no login with the old username; otherwise the username is the merged one; a new password sets the hash; without one and without a new account the hash is kept; a new account appends exactly its login, with the default password's hash when no hash existed; the other branches keep the number of logins |
| StoreSpec.Sweep | server/storage.ts:326-331 | the swept person no longer links to the id; father, mother and spouse are cleared only when they name it; side relations keep exactly the entries naming other ids; every other field, names, age, residence, occupation, biography and WhatsApp number included, is kept |
| StoreSpec.SweepAll | server/storage.ts:326-331 | one swept person per person, in order |
| StoreSpec.DeletePersonSpec | server/storage.ts:313-338 | reports a deletion exactly when a person with the id existed; never adds persons |
| StoreSpec.UpdateUserPasswordSpec | server/storage.ts:188-203 | false and no change when no login has the username; otherwise exactly the first such login gets the new hash, and the first person with that username gets it too |
| Seed.UsersFromPersons | server/storage.ts:152-159 | a login is derived exactly for each person with a non-empty username and a hash, with that person's id, username and hash |
| Storage.MemStorage.constructor | server/storage.ts:66-68 | the store starts empty, with the given hasher |
| Storage.MemStorage.InitSeedData | server/storage.ts:106-163 | the store becomes the seeded persons plus the logins derived from them |
| Storage.MemStorage.GetUser | server/storage.ts:167-171 | returns what `StoreSpec.GetUser` specifies |
| Storage.MemStorage.GetUserByUsername | server/storage.ts:173-176 | returns what `StoreSpec.GetUserByUsername` specifies |
| Storage.MemStorage.CreateUser | server/storage.ts:178-186 | the new store and login are those of `CreateUserSpec` |
| Storage.MemStorage.UpdateUserPassword | server/storage.ts:188-203 | the new store and result are those of `UpdateUserPasswordSpec` |
| Storage.MemStorage.GetPerson | server/storage.ts:207-210 | returns what `StoreSpec.GetPerson` specifies |
| Storage.MemStorage.GetPersons | server/storage.ts:212-215 | returns the stored persons |
| Storage.MemStorage.CreatePerson | server/storage.ts:217-245 | the new store and person are those of `CreatePersonSpec` |
| Storage.MemStorage.UpdatePerson | server/storage.ts:247-311 | the new store and result are those of `UpdatePersonSpec` |
| Storage.MemStorage.DeletePerson | server/storage.ts:313-338 | the new store and result are those of `DeletePersonSpec` |
| Storage.MemStorage.SweepReferences | server/storage.ts:326-331 | the loop leaves every person swept, in place, and the logins unchanged |
| Invariants.LoginIffAccount | server/storage.ts:229-240 | in a consistent store a person has a login with its id and username exactly when it has a username and a role other than none, and that login carries the person's hash |
| Invariants.AppendPersonKeepsConsistent | server/storage.ts:217-245 | appending a person with a fresh id and a free username, with at most one login that it owns and that it must have, keeps the invariant |
| Invariants.CreatePersonKeepsConsistent | server/storage.ts:217-245 | `createPerson` keeps the invariant when the username is free and a person given a role and a username is given a password too |
| Invariants.CreateUserBreaksConsistent | server/storage.ts:178-186 | `createUser` breaks the invariant from every store: its login's fresh id belongs to no person |
| Invariants.CreateWithoutPasswordBreaksConsistent | server/storage.ts:225-229 | on the empty store, creating a user with a username and no password leaves a person with an account and no login |
| Invariants.DeleteRemovesPersonAndLinks | server/storage.ts:323-331 | afterwards no person has the id or links to it; every remaining person is the sweep of a person with another id, and every such person remains |
| Invariants.DeleteKeepsOrder | server/storage.ts:323-331 | with unique ids, the persons are the old sequence without the deleted one, in order, each swept |
| Invariants.DeleteRemovesLogin | server/storage.ts:316-321 | no login is added or changed, and in a consistent store the deleted person's login is gone |
| Invariants.DeleteKeepsUniquePersons | server/storage.ts:323-331 | ids and usernames stay unique among the remaining persons |
| Invariants.DeleteKeepsLoginsOwned | server/storage.ts:313-338 | every remaining login still belongs to a remaining person with an account and the same hash |
| Invariants.DeleteKeepsOtherLogins | server/storage.ts:316-321 | in a consistent store the login filter of `deletePerson` keeps every login of every other person |
| Invariants.AccountsSurviveSweep | server/storage.ts:323-331 | if every remaining person is a swept person other than the deleted one and the other persons' logins are kept, every remaining person with an account still has its login |
| Invariants.DeleteKeepsAccountsHaveLogins | server/storage.ts:313-338 | every remaining person with an account still has its login |
| Invariants.DeleteKeepsConsistent | server/storage.ts:313-338 | `deletePerson` keeps the invariant |
| Invariants.IdSetOfSwept | server/storage.ts:323-331 | persons that are exactly the swept persons other than the deleted one carry the old ids without the deleted one |
| Invariants.DeleteIdSet | server/storage.ts:323 | the remaining ids are the old ids without the deleted one |
| Invariants.DeleteKeepsRelationsClosed | server/storage.ts:325-331 | if no link dangled before the deletion, none dangles after it |
| Invariants.SweepPointsInto | server/storage.ts:326-331 | a swept person links only to ids it linked to, other than the deleted one |
| Invariants.ReplaceKeepsConsistent | server/storage.ts:308 | replacing one person in place keeps the invariant when its id is kept, its username is kept, dropped or free, the other persons' logins are kept, and every new or changed login is its own |
| Invariants.RotateTouchesOnlyOwnLogin | server/storage.ts:263-272 | the password step changes no login but the person's own, and that one only when the username is not changed in the same call |
| Invariants.RotateKeepsLoginNames | server/storage.ts:263-272 | the password step keeps the login usernames unique |
| Invariants.FilterOwnLogin | server/storage.ts:294-298 | when only the person's own login may have changed and no username has, the filter by the person's username leaves exactly the other logins |
| Invariants.RemovalFiltersOwnLogin | server/storage.ts:294-298 | the removal filter drops exactly the person's own login |
| Invariants.UpdateNewAccountKeepsConsistent | server/storage.ts:278-292 | a new-account transition keeps the invariant |
| Invariants.UpdateRemovalKeepsConsistent | server/storage.ts:294-298 | an account removal keeps the invariant |
| Invariants.UpdateRenameKeepsConsistent | server/storage.ts:299-305 | a rename without a new password keeps the invariant |
| Invariants.KeepingAccountLogins | server/storage.ts:263-272 | with no account change, each login afterwards is another person's, untouched, or the person's own, carrying its new hash |
| Invariants.KeepingAccountHoldsLogin | server/storage.ts:263-272 | with no account change, a person that should have a login still holds one after the password step |
| Invariants.UpdateKeepingAccountKeepsConsistent | server/storage.ts:247-311 | an update with no account change keeps the invariant |
| Invariants.UpdatePersonKeepsConsistent | server/storage.ts:247-311 | `updatePerson` keeps the invariant when a new username is free, a rename does not come with a new password, and a role-none person holding a username is not given a role back |
| Invariants.RenameWithPasswordBreaksConsistent | server/storage.ts:268 | renaming and setting a password in one call leaves the renamed login with the old hash while the person has the new one |
| Invariants.ReactivationBreaksConsistent | server/storage.ts:275-276 | giving a role back to a role-none person that kept its username leaves it with an account and no login |
| Invariants.TakenUsernameWithPasswordOverwritesLogin | server/storage.ts:259-272 | a new username that is another account's, given with a new password, overwrites that account's login hash while its person record stays as it was |
| Invariants.TakenUsernameWithPasswordCallerFirst | server/storage.ts:259-305 | with the caller's login first, the same update still overwrites the other account's hash, and the rename gives the caller's own login, with its old hash, the other account's username ahead of that account's login |
| Invariants.RemovalKeepsOtherLogins | server/storage.ts:294-298 | in a consistent store, the removal filter by the person's username keeps every login with another id |
| Invariants.RenameKeepsOtherLogins | server/storage.ts:299-305 | when the logins named like the person carry its id, the rename keeps every login with another id |
| Invariants.TransitionKeepsOtherLogins | server/storage.ts:275-305 | when the logins before the account transition differ from the stored ones only in the person's own login, the transition keeps every login with another id and adds none |
| Invariants.UpdateKeepsOtherLogins | server/storage.ts:247-311 | when no other person uses the new username, `updatePerson` keeps every login of every other person and adds none |
| Invariants.TakenUsernameBreaksConsistent | server/storage.ts:259 | taking another person's username as a new username gives two logins the same username |
| Invariants.RenewLoginKeepsConsistent | server/storage.ts:188-203 | giving a login and the person holding it the same new hash keeps the invariant |
| Invariants.PasswordChangeSucceedsIffAccount | server/storage.ts:188-203 | in a consistent store the change under a person's username succeeds exactly when the person has a role other than none |
| Invariants.UpdateUserPasswordKeepsConsistent | server/storage.ts:188-203 | changing a password keeps the invariant, and on success the login and the person with that username carry the new hash |
| Invariants.UsersFromPersonsDistinct | server/storage.ts:153-159 | logins derived from persons with unique usernames have unique usernames |
| Invariants.UsersFromPersonsConsistent | server/storage.ts:147-159 | the seeding rule gives a consistent store when persons have unique ids and usernames and every person with a username has a role and a hash |
| Invariants.SeedIdsDistinct | server/storage.ts:108-145 | the seeded persons have unique ids |
| Invariants.SeedUsernamesDistinct | server/storage.ts:108-145 | the seeded persons have unique usernames |
| Invariants.SeedAccountsProvisioned | server/storage.ts:108-145 | every seeded person with a username has a role and a hash |
| Invariants.SeedConsistent | server/storage.ts:106-160 | the seeded store (the seeded persons plus the logins derived from them) satisfies the invariant |
| Invariants.SeedRelationsClosed | server/storage.ts:108-145 | every seeded parent and spouse link names a seeded person |
| Routes.AdminGate | server/routes.ts:33-46 | 401 without a session; otherwise 403 unless it passes, and it passes only for a caller whose person record is an admin |
| Routes.AdminGatePassesAdmins | server/routes.ts:38-43 | with unique ids every admin passes the gate |
| Routes.Login | server/routes.ts:49-69 | "Incorrect username." exactly when no login has the username; "Incorrect password." exactly when the first such login's hash is not the password's; on success the first login with the username, which carries the password's hash, is the one whose id and username are reported, with the role of the person with that id, or none |
| Routes.AccountCanLogIn | server/routes.ts:104-122 | in a consistent store a person with an account logs in with the password its hash came from and is reported with its own role |
| Routes.LoginOnlyForAccounts | server/routes.ts:104-122 | in a consistent store a successful login belongs to a person with an account and that password's hash, and the role reported is never none |
| Routes.Sanitise | server/routes.ts:167-189 | the WhatsApp number is kept only for a logged-in caller; with `SanitiseRevealsPublicPart`, every other field but the username and the hash is carried over |
| Routes.PublicListing | server/routes.ts:167-189 | one sanitised entry per person, in the same order |
| Routes.SanitiseRevealsPublicPart | server/routes.ts:167-189 | two persons give the same public entry exactly when they agree on every field but the username, the hash and, for an anonymous caller, the WhatsApp number |
| Routes.ListingHidesSecrets | server/routes.ts:167-189 | the listing carries each person's id in order, hides every WhatsApp number from anonymous callers, and is the same for two stores differing only in usernames, hashes and (for anonymous callers) WhatsApp numbers |
| Routes.NormaliseBody | server/routes.ts:202-206 | the loop rewrites the body array in place into its normalised form |
| Routes.NormalisedProperties | server/routes.ts:228-232 | keys stay in place, exactly the empty strings change and become undefined, no empty string remains, and normalising again changes nothing |
| Routes.Lookup | server/routes.ts:202-206 | a key is found exactly when the body has it, with that key's value |
| Routes.LookupNormalised | server/routes.ts:228-232 | reading a key of the normalised body gives the blanked value of the original |
| Routes.NormalisedPatch | server/routes.ts:228-232 | after normalisation an empty field clears the attribute instead of storing "", and any other field reads as before |
| Routes.CreatePersonRoute | server/routes.ts:198-217 | a denied caller gets the gate's answer (401 without a session, 403 otherwise) and the store is unchanged; an admin gets 201 with the person and store of `createPerson` |
| Routes.UpdatePersonRoute | server/routes.ts:220-260 | 401 exactly when there is no session; 403, with the store unchanged, exactly when a caller that is not an admin edits someone else; for any other caller, 200 with the result of `updatePerson` exactly when the id is known and 404 with the store unchanged exactly when it is not |
| Routes.NonAdminEditsOnlySelf | server/routes.ts:235-244 | a caller that is not an admin changes at most its own record and leaves every other person as it was |
| Routes.NonAdminKeepsOtherLogins | server/routes.ts:235-244 | in a consistent store, a caller that is not an admin, using a username no other person has, keeps every other account's login and adds none |
| Routes.SelfEditTakesOverAccount | server/routes.ts:235-244 | with a taken username and a new password, a caller that is not an admin gets 200 and afterwards logs in as the admin with the admin role, while the admin's record is unchanged |
| Routes.SelfEditTakeoverNeedsAdminFirst | server/routes.ts:235-244 | the same self-edit when the caller's login comes before the admin's: 200, after which the new password is refused for the admin's username and the caller's old password logs in as the caller with role user |
| Routes.CallerLoginFirst | server/routes.ts:52-64 | when two logins share a username, a login by that name is checked against the first one only: its hash decides, and its id and role are reported |
| Routes.SelfEditPromotesToAdmin | server/routes.ts:235-244 | a caller that is not an admin but holds a login, so that a session can carry its id, gives itself the admin role and afterwards passes the admin gate |
| Routes.DeletePersonRoute | server/routes.ts:263-277 | a denied caller gets the gate's answer (401 without a session, 403 otherwise) and the store is unchanged; for an admin, 204 exactly when a person with the id existed and 404 exactly when none did |
| Routes.ChangePasswordRoute | server/routes.ts:307-333 | a denied caller gets the gate's answer (401 without a session, 403 otherwise) and the store is unchanged; after the gate: 400 without a non-empty password; 404 for an unknown person or one without a username; otherwise the result of `updateUserPassword`, 200 on success and 500 on failure |
| Routes.ChangePasswordFailsOnlyWithoutLogin | server/routes.ts:316-329 | in a consistent store the change answers 500 exactly for a person with a username and role none |
| Routes.OnlyAdminsChangeStore | server/routes.ts:33-46 | the create, delete and change-password handlers change the store only for an admin caller |
| Routes.CreatedAccountCanLogIn | server/storage.ts:229-242 | a person created with a role, a username and a password logs in with that password at once, with the role given |
| Routes.DemotedAccountCannotLogIn | server/storage.ts:294-298 | setting a person's role to none clears its username, and its old username no longer logs in |

## Left out

- File persistence is not modelled: `loadData`, `saveData`, the data file, and the lazy `isLoaded`/`ensureLoaded` loading (server/storage.ts:79-104). A save is a no-op, the constructor gives an empty store, and seeding is the separate `InitSeedData`.
- bcrypt `hash`/`compare` (server/storage.ts:70-76) are salted and non-deterministic. Here they are a deterministic uninterpreted function, and a password matches when it hashes to the stored hash.
- `randomUUID` is the deterministic `FreshId`. The model claims only that the id is fresh.
- Logging is not modelled: it is output only.
- Express and passport are not modelled: sessions, cookies, `deserializeUser`, `/api/status`, logout, export and import. The session is an optional caller id.
- Decoding a JSON body into a typed update is not modelled. The handlers take `NewPerson` and `PersonUpdate` values. `Lookup` and `PatchOf` show how one string key reads after normalisation.
- Storage.MemStorage.UpdatePerson: the keys `id` and `passwordHash` of an update body are ignored. The source's spread would copy them into the record. A `username` key needs no such note, because server/storage.ts:259 sets `username` after the spread. `newPassword` and `newUsername` are not stored on the record either.
- Storage.MemStorage.UpdatePerson: `sideRelations` is either absent or an array. A body that sets it to `undefined` would make the next `deletePerson` throw, and that path is not modelled.
- Storage.MemStorage.CreatePerson: undeclared keys of the body, such as `newPassword`, are not copied into the record.
- Seqs.Filter: the contract states which elements are kept, not that they keep their order or how often each occurs. No property of this model depends on either.
- Seed.UsersFromPersons: the contract states which logins are derived, not that they follow the persons' order with one login per person. No property of this model depends on either.
- Storage.MemStorage.GetPersons: the source returns the stored array itself, so callers could change records through it. The model returns a value copy, so aliasing is not captured.
- Async interleaving is not modelled. Each storage call is one atomic step.
- The React client, the Vite setup (server/vite.ts) and shared/schema.ts are not part of this model.
