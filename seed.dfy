/** The bootstrap data of `initSeedData` (server/storage.ts): twelve family members,
    and one login derived from every member that has a username and a hash. */
module Seed {
  import opened FamilyTypes

  /** The login a person's username and hash stand for. */
  function LoginOf(p: Person): UserRecord
    requires p.username.Some? && p.passwordHash.Some?
  {
    UserRecord(p.id, p.username.value, p.passwordHash.value)
  }

  /** `persons.filter(p => p.username && p.passwordHash).map(p => ({id, username, password}))` */
  function UsersFromPersons(ps: seq<Person>): (r: seq<UserRecord>)
    ensures |r| <= |ps|
    ensures forall u :: u in r <==>
              exists p :: p in ps && Truthy(p.username) && p.passwordHash.Some? && u == LoginOf(p)
  {
    if |ps| == 0 then []
    else
      var rest := UsersFromPersons(ps[1..]);
      assert forall p :: p in ps <==> p == ps[0] || p in ps[1..];
      if Truthy(ps[0].username) && ps[0].passwordHash.Some? then [LoginOf(ps[0])] + rest else rest
  }

  /** The descriptive fields of a seeded member: names, age, residence, occupation,
      biography and WhatsApp number. */
  datatype Profile = Profile(first: string, last: string, age: int, residence: string,
                             occupation: string, bio: string, whatsapp: string)

  function Member(id: Id, t: Profile, father: Option<Id>, mother: Option<Id>, spouse: Option<Id>,
                  role: Role, username: Option<string>, passwordHash: Option<Hash>): Person
  {
    Person(id, Some(t.first), Some(t.last), Some(t.age), Some(t.residence), Some(t.occupation),
           Some(t.bio), Some(t.whatsapp), father, mother, spouse, role, username, passwordHash, [])
  }

  /** The descriptive fields of the twelve seeded members, in seeding order. */
  function SeedProfiles(): (r: seq<Profile>)
    ensures |r| == 12
  {
    [
      Profile("أحمد", "السالم", 85, "الرياض، المملكة العربية السعودية", "متقاعد",
              "جد العائلة، أسس الأعمال التجارية للعائلة في الستينيات", "+966501111111"),
      Profile("فاطمة", "العلي", 80, "الرياض، المملكة العربية السعودية", "ربة منزل",
              "جدة العائلة، معلمة متقاعدة", "+966501111112"),
      Profile("محمد", "السالم", 55, "جدة، المملكة العربية السعودية", "مهندس معماري",
              "مهندس معماري متخصص في التصميم الحديث مع لمسات تراثية", "+966502222222"),
      Profile("سارة", "الأحمد", 52, "جدة، المملكة العربية السعودية", "معلمة لغة عربية",
              "معلمة لغة عربية في مدرسة ثانوية", "+966502222223"),
      Profile("خالد", "السالم", 28, "الرياض، المملكة العربية السعودية", "طبيب",
              "طبيب أطفال في مستشفى حكومي", "+966503333333"),
      Profile("نورة", "السالم", 25, "جدة، المملكة العربية السعودية", "مصممة جرافيك",
              "مصممة جرافيك تعمل في شركة إعلانات", "+966503333334"),
      Profile("عبدالله", "السالم", 50, "الدمام، المملكة العربية السعودية", "رجل أعمال",
              "رجل أعمال في قطاع الاستيراد والتصدير", "+966504444444"),
      Profile("منى", "الحربي", 48, "الدمام، المملكة العربية السعودية", "صيدلانية",
              "صيدلانية تدير صيدلية خاصة", "+966504444445"),
      Profile("يوسف", "السالم", 22, "الدمام، المملكة العربية السعودية", "طالب جامعي",
              "طالب هندسة حاسب في السنة النهائية", "+966505555555"),
      Profile("عمر", "السالم", 48, "الرياض، المملكة العربية السعودية", "محامي",
              "محامي متخصص في القضايا التجارية", "+966506666666"),
      Profile("لينا", "القحطاني", 45, "الرياض، المملكة العربية السعودية", "طبيبة أسنان",
              "طبيبة أسنان تملك عيادة خاصة", "+966506666667"),
      Profile("ريم", "السالم", 20, "الرياض، المملكة العربية السعودية", "طالبة جامعية",
              "طالبة طب في السنة الثالثة", "+966507777777")
    ]
  }

  /** The seeded members with descriptive fields `t`: ids, family links, roles, usernames
      and hashes as seeded; `hash` stands for `hashPassword`. */
  function SeedFamily(hash: string -> Hash, t: seq<Profile>): seq<Person>
    requires |t| == 12
  {
    [
      Member("1", t[0], None, None, Some("2"), RoleAdmin, Some("admin"), Some(hash("asd123"))),
      Member("2", t[1], None, None, Some("1"), RoleNone, None, None),
      Member("3", t[2], Some("1"), Some("2"), Some("4"), RoleAdmin, Some("mohamed.s"), Some(hash("123"))),
      Member("4", t[3], None, None, Some("3"), RoleUser, Some("sara.a"), Some(hash("123"))),
      Member("5", t[4], Some("3"), Some("4"), None, RoleUser, Some("khalid.s"), Some(hash("123"))),
      Member("6", t[5], Some("3"), Some("4"), None, RoleUser, Some("noura.s"), Some(hash("123"))),
      Member("7", t[6], Some("1"), Some("2"), Some("8"), RoleUser, Some("abdullah.s"), Some(hash("123"))),
      Member("8", t[7], None, None, Some("7"), RoleUser, Some("mona.h"), Some(hash("123"))),
      Member("9", t[8], Some("7"), Some("8"), None, RoleUser, Some("yousef.s"), Some(hash("123"))),
      Member("10", t[9], Some("1"), Some("2"), Some("11"), RoleUser, Some("omar.s"), Some(hash("123"))),
      Member("11", t[10], None, None, Some("10"), RoleUser, Some("lina.a"), Some(hash("123"))),
      Member("12", t[11], Some("10"), Some("11"), None, RoleUser, Some("reem.s"), Some(hash("123")))
    ]
  }

  /** The seeded members. */
  function SeedPersons(hash: string -> Hash): seq<Person>
  {
    SeedFamily(hash, SeedProfiles())
  }

  /** The store right after seeding. */
  function SeedStore(hash: string -> Hash): DataStore
  {
    DataStore(UsersFromPersons(SeedPersons(hash)), SeedPersons(hash))
  }
}
