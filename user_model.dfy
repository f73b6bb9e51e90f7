/** The user document of src/models/User.js: its roles, defaults and JSON projection. */
module UserModel {
  import opened Wrappers
  import Text

  /** The `role` enum. */
  datatype Role = Student | Faculty | HOD | Principal | ISTE | IEEE | ETTC | Admin

  function RoleName(r: Role): string {
    match r
    case Student => "Student"
    case Faculty => "Faculty"
    case HOD => "HOD"
    case Principal => "Principal"
    case ISTE => "ISTE"
    case IEEE => "IEEE"
    case ETTC => "ETTC"
    case Admin => "Admin"
  }

  /** The enum validator: a string is a role exactly when it is one of the eight names. */
  function ParseRole(s: string): (r: Option<Role>)
    ensures r.Some? ==> RoleName(r.value) == s
  {
    if s == "Student" then Some(Student)
    else if s == "Faculty" then Some(Faculty)
    else if s == "HOD" then Some(HOD)
    else if s == "Principal" then Some(Principal)
    else if s == "ISTE" then Some(ISTE)
    else if s == "IEEE" then Some(IEEE)
    else if s == "ETTC" then Some(ETTC)
    else if s == "Admin" then Some(Admin)
    else None
  }

  lemma ParseRoleName(r: Role)
    ensures ParseRole(RoleName(r)) == Some(r)
  {
  }

  /** Every role other than Student may organize events. */
  predicate IsOrganizerRole(r: Role) {
    r != Student
  }

  /**
   * A stored user. The six profile fields are absent (None) until a profile
   * is created; `registeredEvents` holds event ids.
   */
  datatype User = User(
    name: string,
    email: string,
    password: string,
    role: Role,
    phoneNumber: Option<string>,
    enrollmentNumber: Option<string>,
    birthdate: Option<int>,
    className: Option<string>,
    year: Option<int>,
    semester: Option<int>,
    hasCompletedProfile: bool,
    registeredEvents: seq<string>,
    createdAt: int,
    updatedAt: int)

  /** The `trim: true, lowercase: true` setters on `email`. */
  function NormalizeEmail(s: string): (r: string)
    ensures Text.IsTrimmed(r) && Text.NoUpper(r)
    ensures r == Text.Lower(Text.Trim(s))
  {
    Text.LowerTrimCommute(s);
    Text.LowerHasNoUpper(Text.Trim(s));
    Text.Trim(Text.Lower(s))
  }

  lemma NormalizeEmailIdempotent(s: string)
    ensures NormalizeEmail(NormalizeEmail(s)) == NormalizeEmail(s)
  {
    var r := NormalizeEmail(s);
    Text.LowerOfNoUpper(r);
    Text.TrimOfTrimmed(r);
  }

  /**
   * A new document with the schema defaults: role Student unless one is
   * given, an unfinished profile and no registrations. A role outside the
   * enum fails schema validation (None).
   */
  function NewUser(name: string, email: string, password: string, role: Option<string>, now: int): (u: Option<User>)
    ensures u.None? <==> role.Some? && ParseRole(role.value).None?
    ensures u.Some? ==> u.value.role == (if role.None? then Student else ParseRole(role.value).value)
    ensures u.Some? ==> !u.value.hasCompletedProfile && u.value.registeredEvents == []
    ensures u.Some? ==> u.value.email == NormalizeEmail(email) && u.value.name == Text.Trim(name)
    ensures u.Some? ==> u.value.phoneNumber.None? && u.value.year.None? && u.value.semester.None?
    ensures u.Some? ==> u.value.enrollmentNumber.None? && u.value.birthdate.None? && u.value.className.None?
    ensures u.Some? ==> u.value.password == password && u.value.createdAt == now && u.value.updatedAt == now
  {
    var r := if role.None? then Some(Student) else ParseRole(role.value);
    match r
    case None => None
    case Some(rl) =>
      Some(User(Text.Trim(name), NormalizeEmail(email), password, rl,
                None, None, None, None, None, None,
                false, [], now, now))
  }

  /** `toJSON`: every field except `password` (the schema has no `isVerified`). */
  datatype UserJson = UserJson(
    name: string,
    email: string,
    role: Role,
    phoneNumber: Option<string>,
    enrollmentNumber: Option<string>,
    birthdate: Option<int>,
    className: Option<string>,
    year: Option<int>,
    semester: Option<int>,
    hasCompletedProfile: bool,
    registeredEvents: seq<string>,
    createdAt: int,
    updatedAt: int)

  function ToJson(u: User): UserJson {
    UserJson(u.name, u.email, u.role, u.phoneNumber, u.enrollmentNumber, u.birthdate,
             u.className, u.year, u.semester, u.hasCompletedProfile, u.registeredEvents,
             u.createdAt, u.updatedAt)
  }

  /** Two users look the same in JSON exactly when they differ at most in their password. */
  lemma ToJsonForgetsOnlyPassword(u: User, v: User)
    ensures ToJson(u) == ToJson(v) <==> u.(password := v.password) == v
  {
  }
}
