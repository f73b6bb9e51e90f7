/**
 * The student profile handlers (src/routes/profile/profileController.js)
 * with the validation chain of src/routes/profile/profileRoutes.js. The
 * authenticated user id arrives as a parameter.
 */
module ProfileController {
  import opened Wrappers
  import opened Http
  import opened Text
  import opened UserModel
  import opened EventModel
  import opened Db
  import opened EventQueries

  /** The six fields of a profile request body; `birthdate` already parsed to a time. */
  datatype ProfileInput = ProfileInput(
    phoneNumber: string,
    enrollmentNumber: string,
    birthdate: int,
    className: string,
    year: int,
    semester: int)

  /** `/^\+?[\d\s-]+$/`: an optional plus, then one or more digits, spaces or dashes. */
  predicate IsPhoneNumber(s: string) {
    var rest := if |s| > 0 && s[0] == '+' then s[1..] else s;
    |rest| > 0 && forall i :: 0 <= i < |rest| ==> ('0' <= rest[i] <= '9') || IsSpace(rest[i]) || rest[i] == '-'
  }

  /** The profile validation chain. */
  predicate ValidProfile(p: ProfileInput) {
    && IsPhoneNumber(p.phoneNumber)
    && p.enrollmentNumber != ""
    && p.className != ""
    && 1 <= p.year <= 5
    && 1 <= p.semester <= 10
  }

  /** The `profile` object of the create and update replies. */
  datatype ProfileView = ProfileView(
    phoneNumber: string,
    enrollmentNumber: string,
    birthdate: int,
    className: string,
    year: int,
    semester: int)

  /** The six assignments and `updatedAt`, through the schema's trimming setters. */
  function WithProfile(u: User, p: ProfileInput, now: int): User {
    u.(phoneNumber := Some(Trim(p.phoneNumber)),
       enrollmentNumber := Some(Trim(p.enrollmentNumber)),
       birthdate := Some(p.birthdate),
       className := Some(Trim(p.className)),
       year := Some(p.year),
       semester := Some(p.semester),
       updatedAt := now)
  }

  function ViewOf(p: ProfileInput): ProfileView {
    ProfileView(Trim(p.phoneNumber), Trim(p.enrollmentNumber), p.birthdate, Trim(p.className), p.year, p.semester)
  }

  /** The fields a profile request may change; everything else of the user stays. */
  predicate SameAccount(u: User, v: User) {
    && u.name == v.name && u.email == v.email && u.password == v.password
    && u.role == v.role && u.registeredEvents == v.registeredEvents && u.createdAt == v.createdAt
  }

  /** `POST /profile`. */
  function CreateProfile(t: Tables, userId: string, p: ProfileInput, now: int): (o: Outcome<ProfileView>)
    ensures o.reply.Err? ==> o.after == t
    ensures !ValidProfile(p) ==> o.reply == Err(InvalidInput)
    ensures ValidProfile(p) && userId !in t.users ==> o.reply == Err(UserNotFound)
    ensures ValidProfile(p) && userId in t.users && t.users[userId].role != Student ==> o.reply == Err(OnlyStudentsCreateProfiles)
    ensures o.reply == Err(ProfileAlreadyExists) <==>
      ValidProfile(p) && userId in t.users && t.users[userId].role == Student && t.users[userId].hasCompletedProfile
    ensures o.reply.Ok? <==>
      ValidProfile(p) && userId in t.users && t.users[userId].role == Student && !t.users[userId].hasCompletedProfile
    ensures o.reply.Ok? ==>
      && o.reply.code == 201
      && o.reply.value == ViewOf(p)
      && o.after.events == t.events && o.after.order == t.order
      && userId in o.after.users && o.after.users.Keys == t.users.Keys
      && (forall other | other in t.users && other != userId :: o.after.users[other] == t.users[other])
      && o.after.users[userId].hasCompletedProfile
      && o.after.users[userId].updatedAt == now
      && SameAccount(t.users[userId], o.after.users[userId])
      && o.after.users[userId] == WithProfile(t.users[userId], p, now).(hasCompletedProfile := true)
  {
    if !ValidProfile(p) then Outcome(Err(InvalidInput), t)
    else if userId !in t.users then Outcome(Err(UserNotFound), t)
    else
      var u := t.users[userId];
      if u.role != Student then Outcome(Err(OnlyStudentsCreateProfiles), t)
      else if u.hasCompletedProfile then Outcome(Err(ProfileAlreadyExists), t)
      else
        var u' := WithProfile(u, p, now).(hasCompletedProfile := true);
        Outcome(Ok(201, ViewOf(p)), t.(users := t.users[userId := u']))
  }

  /** `PUT /profile`: the same fields, but only over an existing profile, and the flag is left as is. */
  function UpdateProfile(t: Tables, userId: string, p: ProfileInput, now: int): (o: Outcome<ProfileView>)
    ensures o.reply.Err? ==> o.after == t
    ensures !ValidProfile(p) ==> o.reply == Err(InvalidInput)
    ensures ValidProfile(p) && userId !in t.users ==> o.reply == Err(UserNotFound)
    ensures ValidProfile(p) && userId in t.users && t.users[userId].role != Student ==> o.reply == Err(OnlyStudentsUpdateProfiles)
    ensures o.reply == Err(ProfileNotFound) <==>
      ValidProfile(p) && userId in t.users && t.users[userId].role == Student && !t.users[userId].hasCompletedProfile
    ensures o.reply.Ok? <==>
      ValidProfile(p) && userId in t.users && t.users[userId].role == Student && t.users[userId].hasCompletedProfile
    ensures o.reply.Ok? ==>
      && o.reply.code == 200
      && o.reply.value == ViewOf(p)
      && o.after.events == t.events && o.after.order == t.order
      && userId in o.after.users && o.after.users.Keys == t.users.Keys
      && (forall other | other in t.users && other != userId :: o.after.users[other] == t.users[other])
      && o.after.users[userId].hasCompletedProfile
      && o.after.users[userId].updatedAt == now
      && SameAccount(t.users[userId], o.after.users[userId])
      && o.after.users[userId] == WithProfile(t.users[userId], p, now)
  {
    if !ValidProfile(p) then Outcome(Err(InvalidInput), t)
    else if userId !in t.users then Outcome(Err(UserNotFound), t)
    else
      var u := t.users[userId];
      if u.role != Student then Outcome(Err(OnlyStudentsUpdateProfiles), t)
      else if !u.hasCompletedProfile then Outcome(Err(ProfileNotFound), t)
      else Outcome(Ok(200, ViewOf(p)), t.(users := t.users[userId := WithProfile(u, p, now)]))
  }

  /** The `profile` object of `GET /profile` (the password is not selected). */
  datatype ProfileDetail = ProfileDetail(
    name: string,
    email: string,
    phoneNumber: Option<string>,
    enrollmentNumber: Option<string>,
    birthdate: Option<int>,
    className: Option<string>,
    year: Option<int>,
    semester: Option<int>,
    registeredEvents: seq<string>)

  function DetailOf(u: User): ProfileDetail {
    ProfileDetail(u.name, u.email, u.phoneNumber, u.enrollmentNumber, u.birthdate,
                  u.className, u.year, u.semester, u.registeredEvents)
  }

  /** `GET /profile`. */
  function GetProfile(t: Tables, userId: string): (r: Reply<ProfileDetail>)
    ensures userId !in t.users ==> r == Err(UserNotFound)
    ensures userId in t.users && t.users[userId].role != Student ==> r == Err(OnlyStudentsHaveProfiles)
    ensures userId in t.users && t.users[userId].role == Student && !t.users[userId].hasCompletedProfile ==> r == Err(ProfileNotFound)
    ensures r.Ok? <==> userId in t.users && t.users[userId].role == Student && t.users[userId].hasCompletedProfile
    ensures r.Err? ==> r.reason in {UserNotFound, OnlyStudentsHaveProfiles, ProfileNotFound}
    ensures r.Ok? ==>
      && r.code == 200 && r.value.registeredEvents == t.users[userId].registeredEvents
      && r.value.name == t.users[userId].name && r.value.email == t.users[userId].email
  {
    if userId !in t.users then Err(UserNotFound)
    else
      var u := t.users[userId];
      if u.role != Student then Err(OnlyStudentsHaveProfiles)
      else if !u.hasCompletedProfile then Err(ProfileNotFound)
      else Ok(200, DetailOf(u))
  }

  datatype UserEvents = UserEvents(totalRegisteredEvents: int, registeredEvents: seq<Summary>)

  /** `GET /profile/events`: the student's stored events with their capacity blocks. */
  function GetUserEvents(t: Tables, userId: string): (r: Reply<UserEvents>)
    ensures userId !in t.users ==> r == Err(UserNotFound)
    ensures userId in t.users && t.users[userId].role != Student ==> r == Err(OnlyStudentsHaveEvents)
    ensures r.Ok? <==> userId in t.users && t.users[userId].role == Student
    ensures r.Ok? ==>
      && r.code == 200
      && r.value.totalRegisteredEvents == |r.value.registeredEvents|
      && (forall s | s in r.value.registeredEvents :: s.id in t.users[userId].registeredEvents && s.id in t.events)
      && (Indexed(t) ==> forall id | id in t.events && id in t.users[userId].registeredEvents ::
            id in SummaryIds(r.value.registeredEvents))
      && (forall s | s in r.value.registeredEvents :: s == Summarize(Doc(s.id, t.events[s.id])))
      && (Indexed(t) ==> Distinct(SummaryIds(r.value.registeredEvents)))
  {
    if userId !in t.users then Err(UserNotFound)
    else
      var u := t.users[userId];
      if u.role != Student then Err(OnlyStudentsHaveEvents)
      else
        var s := UserEventSummaries(t, u);
        Ok(200, UserEvents(|s|, s))
  }

  /** A created profile reads back with the trimmed fields that were sent. */
  lemma CreateThenGet(t: Tables, userId: string, p: ProfileInput, now: int)
    requires CreateProfile(t, userId, p, now).reply.Ok?
    ensures var r := GetProfile(CreateProfile(t, userId, p, now).after, userId);
      && r.Ok?
      && r.value.phoneNumber == Some(Trim(p.phoneNumber))
      && r.value.enrollmentNumber == Some(Trim(p.enrollmentNumber))
      && r.value.birthdate == Some(p.birthdate)
      && r.value.className == Some(Trim(p.className))
      && r.value.year == Some(p.year) && r.value.semester == Some(p.semester)
      && r.value.registeredEvents == t.users[userId].registeredEvents
  {
  }

  /** An updated profile reads back with the trimmed fields of the update, and the flag stays set. */
  lemma UpdateThenGet(t: Tables, userId: string, p: ProfileInput, now: int)
    requires UpdateProfile(t, userId, p, now).reply.Ok?
    ensures var r := GetProfile(UpdateProfile(t, userId, p, now).after, userId);
      && r.Ok?
      && r.value.phoneNumber == Some(Trim(p.phoneNumber))
      && r.value.enrollmentNumber == Some(Trim(p.enrollmentNumber))
      && r.value.birthdate == Some(p.birthdate)
      && r.value.className == Some(Trim(p.className))
      && r.value.year == Some(p.year) && r.value.semester == Some(p.semester)
      && r.value.registeredEvents == t.users[userId].registeredEvents
  {
  }

  /** After a profile is created, a second create is refused and an update is accepted. */
  lemma CreateOnlyOnce(t: Tables, userId: string, p: ProfileInput, q: ProfileInput, now: int, later: int)
    requires CreateProfile(t, userId, p, now).reply.Ok? && ValidProfile(q)
    ensures var t1 := CreateProfile(t, userId, p, now).after;
      && CreateProfile(t1, userId, q, later).reply == Err(ProfileAlreadyExists)
      && UpdateProfile(t1, userId, q, later).reply.Ok?
  {
    var t1 := CreateProfile(t, userId, p, now).after;
    assert userId in t1.users && t1.users[userId].role == Student && t1.users[userId].hasCompletedProfile;
    CompletedStudent(t1, userId, q, later);
  }

  lemma CompletedStudent(t: Tables, userId: string, q: ProfileInput, now: int)
    requires userId in t.users && t.users[userId].role == Student && t.users[userId].hasCompletedProfile
    requires ValidProfile(q)
    ensures CreateProfile(t, userId, q, now).reply == Err(ProfileAlreadyExists)
    ensures UpdateProfile(t, userId, q, now).reply.Ok?
  {
  }

  /**
   * The completion flag only ever goes from false to true, and only through
   * a successful create: an update never sets it and neither operation clears it.
   */
  lemma CompletionFlagMonotone(t: Tables, userId: string, p: ProfileInput, now: int, uid: string)
    requires uid in t.users
    ensures var a := CreateProfile(t, userId, p, now).after;
      uid in a.users && (t.users[uid].hasCompletedProfile ==> a.users[uid].hasCompletedProfile)
    ensures var a := UpdateProfile(t, userId, p, now).after;
      uid in a.users && a.users[uid].hasCompletedProfile == t.users[uid].hasCompletedProfile
    ensures var o := CreateProfile(t, userId, p, now);
      !t.users[uid].hasCompletedProfile && o.after.users[uid].hasCompletedProfile ==> o.reply.Ok? && uid == userId
  {
  }

  /** Neither profile operation touches events or the users' event lists, so every invariant survives. */
  lemma ProfileKeepsConsistency(t: Tables, userId: string, p: ProfileInput, now: int)
    requires Consistent(t)
    ensures Consistent(CreateProfile(t, userId, p, now).after)
    ensures Consistent(UpdateProfile(t, userId, p, now).after)
  {
    var c := CreateProfile(t, userId, p, now);
    if c.reply.Ok? {
      SameListsKeepConsistency(t, c.after);
    }
    var u := UpdateProfile(t, userId, p, now);
    if u.reply.Ok? {
      SameListsKeepConsistency(t, u.after);
    }
  }
}
