/** The records kept by the in-memory family store (server/storage.ts) and the
    shapes of the requests that change them. */
module FamilyTypes {

  datatype Option<T> = None | Some(value: T)

  /** Person and login ids (UUID strings in the source). */
  type Id = string

  /** A password hash as produced by the hasher; a bcrypt hash is never empty. */
  type Hash = h: string | h != "" witness "#"

  /** The access role: "admin", "user" or "none". */
  datatype Role = RoleAdmin | RoleUser | RoleNone

  /** A labelled non-parental, non-spousal link to another person. */
  datatype SideRelation = SideRelation(id: Id, relationType: string)

  /** A family member record. Every attribute the store may leave undefined is an `Option`. */
  datatype Person = Person(
    id: Id,
    firstName: Option<string>,
    lastName: Option<string>,
    age: Option<int>,
    residence: Option<string>,
    occupation: Option<string>,
    bio: Option<string>,
    whatsapp: Option<string>,
    fatherId: Option<Id>,
    motherId: Option<Id>,
    spouseId: Option<Id>,
    role: Role,
    username: Option<string>,
    passwordHash: Option<Hash>,
    sideRelations: seq<SideRelation>)

  /** A login record: the person's id, the login name and the stored hash. */
  datatype UserRecord = UserRecord(id: Id, username: string, password: Hash)

  /** The whole state of the store: the two collections kept side by side. */
  datatype DataStore = DataStore(users: seq<UserRecord>, persons: seq<Person>)

  /** The fields given to `createPerson`; `None` is a key that is absent or undefined. */
  datatype NewPerson = NewPerson(
    firstName: Option<string>,
    lastName: Option<string>,
    age: Option<int>,
    residence: Option<string>,
    occupation: Option<string>,
    bio: Option<string>,
    whatsapp: Option<string>,
    fatherId: Option<Id>,
    motherId: Option<Id>,
    spouseId: Option<Id>,
    role: Option<Role>,
    username: Option<string>,
    sideRelations: Option<seq<SideRelation>>)

  /** One key of a partial update: absent (`Keep`), or present with a value or undefined (`Put`).
      A present key overwrites the stored field even when its value is undefined. */
  datatype Patch<T> = Keep | Put(value: Option<T>)

  /** The partial update given to `updatePerson`. `role`, `newUsername` and `newPassword` are read
      through JavaScript truthiness, so for them `None` stands for absent, undefined or empty. */
  datatype PersonUpdate = PersonUpdate(
    firstName: Patch<string>,
    lastName: Patch<string>,
    age: Patch<int>,
    residence: Patch<string>,
    occupation: Patch<string>,
    bio: Patch<string>,
    whatsapp: Patch<string>,
    fatherId: Patch<Id>,
    motherId: Patch<Id>,
    spouseId: Patch<Id>,
    sideRelations: Option<seq<SideRelation>>,
    role: Option<Role>,
    newUsername: Option<string>,
    newPassword: Option<string>)

  /** JavaScript truthiness of an optional string: defined and not "". */
  predicate Truthy(o: Option<string>)
  {
    o.Some? && o.value != ""
  }

  /** `p.id === id` */
  function PersonIdIs(id: Id): Person -> bool
  {
    (p: Person) => p.id == id
  }

  /** `p.id !== id` */
  function PersonIdIsNot(id: Id): Person -> bool
  {
    (p: Person) => p.id != id
  }

  /** `p.username === name`, for a person whose username may be undefined. */
  function PersonNameIs(name: Option<string>): Person -> bool
  {
    (p: Person) => p.username == name
  }

  /** `u.id === id` */
  function UserIdIs(id: Id): UserRecord -> bool
  {
    (u: UserRecord) => u.id == id
  }

  /** `u.username === name`; a record's username is always defined, so it never equals undefined. */
  function UserNameIs(name: Option<string>): UserRecord -> bool
  {
    (u: UserRecord) => Some(u.username) == name
  }

  /** `u.username !== name` */
  function UserNameIsNot(name: Option<string>): UserRecord -> bool
  {
    (u: UserRecord) => Some(u.username) != name
  }

  /** `rel.id !== id` */
  function RelationIdIsNot(id: Id): SideRelation -> bool
  {
    (rel: SideRelation) => rel.id != id
  }
}
